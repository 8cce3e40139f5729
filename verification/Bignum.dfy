/** The mpi object: storage, bits, shifts and comparison (bignum.c up to mpi_cmp_int). */
module Bignum {
  import opened Arith
  import opened Limbs

  datatype Error =
    | NegativeValue | DivisionByZero | BadInputData | NotAcceptable | InvalidCharacter | BufferTooSmall

  /** mpi_grow refuses more limbs; the other contracts are about numbers within this limit. */
  const MPI_MAX_LIMBS: nat := 10000

  /** The int return code: zero or an error. */
  datatype Ret = Ok | Fail(error: Error) {
    predicate IsFailure() {
      Fail?
    }
    function PropagateFailure(): Ret
      requires Fail?
    {
      this
    }
  }

  type Sint = x: int | -0x8000_0000 <= x < 0x8000_0000

  function AbsInt(x: int): (r: nat) {
    if x < 0 then -x else x
  }

  function Sgn(x: int): (r: int) {
    if x < 0 then -1 else if x > 0 then 1 else 0
  }

  /** The number of limbs a number needs. */
  function Len(v: nat): (n: nat) {
    if v == 0 then 0 else 1 + Len(v / BASE)
  }

  lemma {:induction false} LenUnique(v: nat, n: nat)
    requires v < Pow(n) && (n > 0 ==> Pow(n - 1) <= v)
    ensures Len(v) == n
    decreases n
  {
    if n > 0 {
      DivLess(v, BASE, Pow(n - 1));
      if n > 1 { LenUnique(v / BASE, n - 1); }
    }
  }

  lemma {:induction false} LenBounds(v: nat)
    ensures v < Pow(Len(v)) && (v > 0 ==> Pow(Len(v) - 1) <= v)
  {
    if v > 0 {
      LenBounds(v / BASE);
    }
  }

  lemma LenZero(v: nat)
    ensures Len(v) == 0 <==> v == 0
  {
  }

  lemma LenMono(v: nat, w: nat)
    requires Len(v) < Len(w)
    ensures v < w
  {
    LenBounds(v);
    LenBounds(w);
    PowMono(Len(v), Len(w) - 1);
  }

  lemma LenAtMost(v: nat, n: nat)
    requires v < Pow(n)
    ensures Len(v) <= n
  {
    LenBounds(v);
    if v > 0 { PowOrder(n, Len(v) - 1); }
  }

  /** The scan for the highest nonzero limb that opens most routines of bignum.c. */
  method HighLimb(p: seq<Limb>) returns (i: nat)
    ensures i <= |p| && i == Len(Nat(p))
    ensures i > 0 ==> p[i - 1] != 0
    ensures forall k :: i <= k < |p| ==> p[k] == 0
  {
    i := |p|;
    while i > 0 && p[i - 1] == 0
      invariant i <= |p|
      invariant forall k :: i <= k < |p| ==> p[k] == 0
    {
      i := i - 1;
    }
    NatHigh(p, i);
    if i > 0 { NatTop(p, i - 1); }
    LenUnique(Nat(p), i);
  }

  class Mpi {
    var s: int          // sign, 1 or -1
    var p: seq<Limb>    // limbs, least significant first; empty when no buffer is allocated

    function Abs(): nat
      reads this
    {
      Nat(p)
    }

    function Val(): int
      reads this
    {
      var v: int := Nat(p);
      if s < 0 then -v else v
    }

    ghost predicate Valid()
      reads this
    {
      s == 1 || s == -1
    }

    constructor ()
      ensures s == 1 && p == []
    {
      s, p := 1, [];
    }

    /** A table entry cleared by memset. */
    constructor Zeroed()
      ensures s == 0 && p == []
    {
      s, p := 0, [];
    }

    /** The one-limb operand that mpi_cmp_int, mpi_add_int, ... build on the stack. */
    constructor OnStack(sign: int, limb: Limb)
      ensures s == sign && p == [limb]
    {
      s, p := sign, [limb];
    }

    method Free()
      modifies this
      ensures s == 1 && p == []
    {
      s, p := 1, [];
    }

    /** Enlarging keeps the value; it never shrinks. */
    method Grow(n: nat)
      modifies this
      ensures s == old(s) && p == old(p) + Zeros(if |old(p)| < n then n - |old(p)| else 0)
      ensures Nat(p) == Nat(old(p))
    {
      if |p| < n {
        NatPad(p, n - |p|);
        p := p + Zeros(n - |p|);
      } else {
        assert p + Zeros(0) == p;
      }
    }

    method Copy(Y: Mpi)
      modifies this
      ensures this != Y ==> s == if |Y.p| == 0 then 1 else Y.s
      ensures this == Y ==> s == old(s) && p == old(p)
      ensures Nat(p) == old(Nat(Y.p))
      ensures this != Y ==>
        |p| == if |Y.p| == 0 then 0
               else if |old(p)| > Len(Nat(Y.p)) then |old(p)|
               else if Len(Nat(Y.p)) == 0 then 1 else Len(Nat(Y.p))
    {
      if this == Y { return; }
      if |Y.p| == 0 {
        Free();
        return;
      }
      var i := HighLimb(Y.p);
      if i == 0 { i := 1; }   // the scan of mpi_copy stops at limb 0
      s := Y.s;
      Grow(i);
      NatHigh(Y.p, i);
      NatPad(Y.p[..i], |p| - i);
      p := Y.p[..i] + Zeros(|p| - i);
    }

    method Lset(z: Sint)
      modifies this
      ensures s == (if z < 0 then -1 else 1) && Nat(p) == AbsInt(z) && Val() == z
      ensures |p| == if |old(p)| == 0 then 1 else |old(p)|
      ensures p[0] == AbsInt(z) && forall k :: 1 <= k < |p| ==> p[k] == 0
    {
      Grow(1);
      p := Zeros(|p|);
      p := p[0 := AbsInt(z)];
      s := if z < 0 then -1 else 1;
      NatZero(p[1..]);
    }
  }
}
