/** Reduction into [0, B) (bignum.c: mpi_mod_mpi, mpi_mod_int). */
module Modulo {
  import opened Arith
  import opened Limbs
  import opened Bignum
  import opened Bits
  import opened Shift
  import opened AddSub
  import opened Divide

  lemma RemainderClass(a: int, b: int)
    requires b > 0
    ensures TRem(a, b) % b == a % b
    ensures a >= 0 ==> 0 <= TRem(a, b) < b
  {
    TruncatedDivisionHolds(a, b);
    var q, r := TQuot(a, b), TRem(a, b);
    assert r + q * b == a;
    ModAddMultiple(r, q, b);
  }

  /**
   * R = A mod B in [0, B); refused exactly for B <= 0. Storing the result over a positive B is left
   * out because the loops then never end (see SelfReduceTurns).
   */
  method ModMpi(R: Mpi, A: Mpi, B: Mpi) returns (r: Ret)
    requires A.Valid() && B.Valid() && (R == B ==> B.Val() <= 0)
    modifies R
    ensures r == if old(B.Val()) < 0 then Fail(NegativeValue) else if old(B.Val()) == 0 then Fail(DivisionByZero) else Ok
    ensures r.Ok? ==> R.Valid() && R.Val() == old(A.Val()) % old(B.Val())
    ensures r.Ok? && old(A.s) == 1 ==> R.s == 1
    ensures r.Ok? && |old(A.p)| > 0 ==> |R.p| >= |old(R.p)| && |R.p| >= 1
    ensures r.Ok? && |old(A.p)| > 0 && old(A.Val()) >= 0 ==> |R.p| == Max(|old(R.p)|, Max(1, Len(Nat(R.p))))
  {
    PositiveVal(A);
    hide Nat, Len, TRem, TQuot;
    ghost var a, b := A.Val(), B.Val();
    var c := CmpInt(B, 0);
    if c < 0 { return Fail(NegativeValue); }
    :- DivMpi(null, R, A, B);
    RemainderClass(a, b);
    Reduce(R, B);
    return Ok;
  }

  lemma PositiveVal(A: Mpi)
    ensures A.s == 1 ==> A.Val() >= 0
  {
  }

  /** while( R < 0 ) R += B; while( R >= B ) R -= B; */
  method Reduce(R: Mpi, B: Mpi)
    requires R != B && R.Valid() && B.Valid() && B.Val() > 0
    modifies R
    ensures R.Valid() && R.Val() == old(R.Val()) % B.Val()
    ensures |old(R.p)| > 0 ==> |R.p| >= |old(R.p)|
    ensures 0 <= old(R.Val()) < B.Val() ==> R.p == old(R.p) && R.s == old(R.s)
  {
    hide Nat;
    ghost var v, b := R.Val(), B.Val();
    NatPositive(B.p);
    var c := CmpInt(R, 0);
    while c < 0
      invariant R.Valid() && c == Sgn(R.Val()) && R.Val() % b == v % b
      invariant |old(R.p)| > 0 ==> |R.p| >= |old(R.p)|
      invariant 0 <= v < b ==> R.p == old(R.p) && R.s == old(R.s)
      decreases -R.Val()
    {
      ModAddMultiple(R.Val(), 1, b);
      AddMpi(R, R, B);
      c := CmpInt(R, 0);
    }
    c := CmpMpi(R, B);
    while c >= 0
      invariant R.Valid() && R.Val() >= 0 && c == Sgn(R.Val() - b) && R.Val() % b == v % b
      invariant |old(R.p)| > 0 ==> |R.p| >= |old(R.p)|
      invariant 0 <= v < b ==> R.p == old(R.p) && R.s == old(R.s)
      decreases R.Val()
    {
      ModAddMultiple(R.Val(), -1, b);
      SubMpi(R, R, B);
      c := CmpMpi(R, B);
    }
    ModSmall(R.Val(), b);
  }

  /** With R and B the same object, the guard R >= B of the second loop still holds after any number of turns. */
  method SelfReduceTurns(R: Mpi, turns: nat) returns (c: int)
    requires R.Valid()
    modifies R
    ensures c >= 0 && R.Valid() && (turns > 0 ==> R.Val() == 0)
  {
    hide Nat;
    c := CmpMpi(R, R);
    for i := 0 to turns
      invariant R.Valid() && c == 0 && (i > 0 ==> R.Val() == 0)
    {
      SubMpi(R, R, R);
      c := CmpMpi(R, R);
    }
  }

  // ---------- reduction by a single limb ----------

  /** y = ( y << biH ) | h; y -= ( y / b ) * b; */
  function ModStep(y: nat, h: nat, b: nat): (r: nat)
    requires b > 0
  {
    BitOr(y * HALF % BASE, h) % b
  }

  /** What the half-limb loop of mpi_mod_int computes. */
  function ModLoop(p: seq<Limb>, b: nat): (r: nat)
    requires b > 0
  {
    if |p| == 0 then 0
    else ModStep(ModStep(ModLoop(p[1..], b), p[0] / HALF, b), p[0] % HALF, b)
  }

  lemma ModStepExact(y: nat, h: nat, b: nat)
    requires 0 < b && y < b && h < HALF && (b <= HALF || BASE % b == 0)
    ensures ModStep(y, h, b) == (y * HALF + h) % b
  {
    hide BitOr, Pow2;
    var z := y * HALF % BASE;
    Pow2Values();
    BitOrDisjoint(z, h, 16);
    if b > HALF { DroppedMultiple(y * HALF, h, b); }
  }

  /** Bits dropped above 2^32 do not matter to a divisor of 2^32. */
  lemma DroppedMultiple(x: nat, h: nat, b: nat)
    requires 0 < b && BASE % b == 0
    ensures (x % BASE + h) % b == (x + h) % b
  {
    var k, m := BASE / b, x / BASE;
    assert BASE == k * b;
    Assoc(m, k, b);
    ModAddMultiple(x % BASE + h, m * k, b);
  }

  lemma {:induction false} ModLoopExact(p: seq<Limb>, b: nat)
    requires 0 < b && (b <= HALF || BASE % b == 0)
    ensures ModLoop(p, b) == Nat(p) % b
  {
    if |p| > 0 {
      var n := Nat(p[1..]);
      ModLoopExact(p[1..], b);
      var y, h1, h0 := n % b, p[0] / HALF, p[0] % HALF;
      ModStepExact(y, h1, b);
      var y1 := (y * HALF + h1) % b;
      ModStepExact(y1, h0, b);
      CongMod(n, b);
      CongMod(y * HALF + h1, b);
      CongMul(y, n, HALF, HALF, b);
      CongAdd(y * HALF, n * HALF, h1, h1, b);
      CongMul(y1, n * HALF + h1, HALF, HALF, b);
      CongAdd(y1 * HALF, (n * HALF + h1) * HALF, h0, h0, b);
      assert (n * HALF + h1) * HALF + h0 == Nat(p);
    } else {
      ModSmall(0, b);
    }
  }

  /** For other divisors the shift drops bits: 2^32 is reduced to 0. */
  lemma ModLoopLoses(b: nat)
    requires HALF < b < BASE && BASE % b != 0
    ensures Nat([0, 1]) == BASE && ModLoop([0, 1], b) == 0 != Nat([0, 1]) % b
  {
    assert [0, 1][1..] == [1] && [1][1..] == [];
    NatOne(1);
    assert ModLoop([], b) == 0;
    ModSmall(0, b);
    ModSmall(1, b);
    ModSmall(HALF, b);
    assert BitOr(0, 0) == 0 && BitOr(0, 1) == 1;
    assert ModStep(0, 0, b) == 0;
    assert ModStep(0, 1, b) == 1;
    assert ModLoop([1], b) == 1;
    assert ModStep(1, 0, b) == HALF;
    assert ModStep(HALF, 0, b) == 0;
  }

  /** mpi_mod_int is exact on every number iff its divisor fits half a limb or divides 2^32. */
  lemma ModIntExact(b: nat)
    requires 0 < b < BASE
    ensures (forall p: seq<Limb> :: ModLoop(p, b) == Nat(p) % b) <==> b <= HALF || BASE % b == 0
  {
    if b <= HALF || BASE % b == 0 {
      forall p: seq<Limb> ensures ModLoop(p, b) == Nat(p) % b { ModLoopExact(p, b); }
    } else {
      ModLoopLoses(b);
    }
  }

  lemma LowBitIsParity(p: seq<Limb>)
    requires |p| > 0
    ensures p[0] % 2 == Nat(p) % 2
  {
  }

  lemma HalfShift(x: Limb)
    ensures Shl(x, BIH) / HALF == x % HALF
  {
    Pow2Values();
  }

  lemma NegativeResidue(n: int, b: nat)
    requires b > 0
    ensures (-n) % b == if n % b == 0 then 0 else b - n % b
  {
    var q, y := n / b, n % b;
    if y == 0 {
      DivUnique(-n, b, -q, 0);
    } else {
      DivUnique(-n, b, -q - 1, b - y);
    }
  }

  /** r = A mod b in [0, b) for the divisors ModIntExact names, and what the loop leaves for the others. */
  method ModInt(A: Mpi, b: Sint) returns (ret: Ret, r: nat)
    requires A.Valid() && |A.p| >= 1
    ensures ret == if b == 0 then Fail(DivisionByZero) else if b < 0 then Fail(NegativeValue) else Ok
    ensures b > 0 && (b <= HALF || BASE % b == 0) ==> r == A.Val() % b
    ensures b > HALF ==> r == var y := ModLoop(A.p, b); if A.s < 0 && y != 0 then b - y else y
  {
    hide Nat, BitOr, Pow2;
    r := 0;
    if b == 0 { return Fail(DivisionByZero), r; }
    if b < 0 { return Fail(NegativeValue), r; }
    LowBitIsParity(A.p);
    if b == 1 { return Ok, 0; }
    if b == 2 { return Ok, A.p[0] % 2; }
    var y := ModLimbs(A.p, b);
    if b <= HALF || BASE % b == 0 {
      ModLoopExact(A.p, b);
      NegativeResidue(Nat(A.p), b);
    }
    if A.s < 0 && y != 0 { y := b - y; }
    return Ok, y;
  }

  /** z = y / b; y -= z * b; */
  method SubtractMultiple(y: nat, b: nat) returns (r: nat)
    requires 0 < b
    ensures r == y % b
  {
    var z := y / b;
    r := y - z * b;
  }

  method ModLimbs(p: seq<Limb>, b: nat) returns (y: nat)
    requires 0 < b < BASE
    ensures y == ModLoop(p, b) && y < b
  {
    hide BitOr, Shl;
    var i := |p|;
    y := 0;
    while i > 0
      invariant 0 <= i <= |p| && y == ModLoop(p[i..], b) && y < b
    {
      var x := p[i - 1];
      assert p[i - 1..][1..] == p[i..];
      y := SubtractMultiple(BitOr(y * HALF % BASE, x / HALF), b);
      HalfShift(x);
      x := Shl(x, BIH);
      y := SubtractMultiple(BitOr(y * HALF % BASE, x / HALF), b);
      i := i - 1;
    }
    assert p[0..] == p;
  }
}
