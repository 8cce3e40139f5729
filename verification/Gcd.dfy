/** Binary greatest common divisor (bignum.c: mpi_gcd). */
module BinaryGcd {
  import opened Arith
  import opened Divisors
  import opened Limbs
  import opened Bignum
  import opened Bits
  import opened Shift
  import opened AddSub
  import opened Divide
  import opened Modulo
  import opened ExpMod

  // ---------- the binary algorithm ----------

  /** The value mpi_gcd computes: the greatest common divisor, except that B = 0 gives 0. */
  function GcdResult(a: nat, b: nat): (g: nat) {
    if b == 0 then 0 else Gcd(a, b)
  }

  /** mpi_gcd( A, B ) is the greatest common divisor exactly when B is not zero or both are. */
  lemma GcdResultExact(a: nat, b: nat)
    ensures IsGcd(GcdResult(a, b), a, b) <==> b != 0 || a == 0
  {
    GcdIsGcd(a, b);
  }

  ghost predicate GcdLoop(a: nat, b: nat, g: nat) {
    if b == 0 then g == 0 else Gcd(a, b) == g && (a > 0 ==> a % 2 == 1 || b % 2 == 1)
  }

  /** Removing the twos of both operands keeps their gcd once one of them is odd. */
  lemma DropTwos(a: nat, b: nat, g: nat, i: nat, j: nat)
    requires a > 0 && GcdLoop(a, b, g) && TrailingZeros(a, i)
    requires if b == 0 then j == 0 else TrailingZeros(b, j)
    ensures GcdLoop(a / Pow2(i), b / Pow2(j), g) && 0 < a / Pow2(i) <= a && a / Pow2(i) % 2 == 1
    ensures b > 0 ==> 0 < b / Pow2(j) <= b && b / Pow2(j) % 2 == 1
    ensures b == 0 ==> b / Pow2(j) == 0
  {
    hide Pow2, Gcd;
    Pow2Zero();
    var x, y := a / Pow2(i), b / Pow2(j);
    OddPart(a, i);
    if b > 0 {
      OddPart(b, j);
      if a % 2 == 1 {
        OddHasNoTwos(a, i);
        GcdSymmetric(a, b);
        GcdShift(y, j, a);
        GcdSymmetric(y, a);
      } else {
        OddHasNoTwos(b, j);
        GcdShift(x, i, b);
      }
    }
  }

  lemma OddPart(a: nat, i: nat)
    requires a > 0 && TrailingZeros(a, i)
    ensures var x := a / Pow2(i); a == x * Pow2(i) && 0 < x <= a
  {
    DivBounds(a, Pow2(i));
  }

  lemma TwosAreEven(a: nat, i: nat)
    ensures i > 0 && a % Pow2(i) == 0 ==> a % 2 == 0
  {
    if i > 0 && a % Pow2(i) == 0 {
      Assoc(2, Pow2(i - 1), a / Pow2(i));
      assert a == Pow2(i) * (a / Pow2(i));
    }
  }

  lemma OddHasNoTwos(a: nat, i: nat)
    requires a % 2 == 1 && TrailingZeros(a, i)
    ensures i == 0 && a / Pow2(i) == a
  {
    TwosAreEven(a, i);
    Pow2Zero();
  }

  /** The subtract-and-halve step. */
  lemma SubtractHalve(a: nat, b: nat, g: nat)
    requires a >= b && GcdLoop(a, b, g) && a % 2 == 1 && (b > 0 ==> b % 2 == 1)
    ensures GcdLoop((a - b) / 2, b, g)
  {
    hide Gcd;
    if b > 0 {
      GcdSubtract(a, b);
      assert a - b == 2 * ((a - b) / 2);
      GcdHalve((a - b) / 2, b);
    }
  }

  lemma LoopSymmetric(a: nat, b: nat, g: nat)
    requires a > 0 && b > 0
    ensures GcdLoop(a, b, g) <==> GcdLoop(b, a, g)
  {
    hide Gcd;
    GcdSymmetric(a, b);
  }

  /** Removal of the common twos. */
  lemma CommonTwos(a: nat, b: nat, i: nat, j: nat, lz: nat)
    requires (if a == 0 then i == 0 else TrailingZeros(a, i)) && (if b == 0 then j == 0 else TrailingZeros(b, j))
    requires lz == if j < i then j else i
    ensures GcdLoop(Down(a, lz), Down(b, lz), GcdResult(Down(a, lz), Down(b, lz)))
    ensures GcdResult(Down(a, lz), Down(b, lz)) * Pow2(lz) == GcdResult(a, b)
  {
    hide Pow2, Gcd, TrailingZeros;
    var x, y := Down(a, lz), Down(b, lz);
    ExactShift(a, i, lz);
    ExactShift(b, j, lz);
    GcdScale(x, y, Pow2(lz));
    assert 0 * Pow2(lz) == 0;
  }

  lemma ExactShift(a: nat, i: nat, lz: nat)
    requires lz <= i && if a == 0 then i == 0 else TrailingZeros(a, i)
    ensures a == Down(a, lz) * Pow2(lz) && (a == 0 <==> Down(a, lz) == 0)
    ensures a > 0 && lz == i ==> Down(a, lz) % 2 == 1
  {
    hide Pow2;
    Pow2Add(i - lz, lz);
    Pow2Zero();
    if a > 0 {
      var q := a / Pow2(i);
      assert a == Pow2(i) * q == (Pow2(i - lz) * q) * Pow2(lz) by {
        assert (Pow2(i - lz) * Pow2(lz)) * q == (Pow2(i - lz) * q) * Pow2(lz);
      }
      DivUnique(a, Pow2(lz), Pow2(i - lz) * q, 0);
    } else {
      ModSmall(0, Pow2(lz));
    }
  }

  /** One turn of the loop. */
  method GcdTurn(TA: Mpi, TB: Mpi, ghost g: nat)
    requires TA != TB && TA.s == 1 && TB.s == 1 && Nat(TA.p) > 0 && |TB.p| >= 1 && GcdLoop(Nat(TA.p), Nat(TB.p), g)
    modifies TA, TB
    ensures TA.s == 1 && TB.s == 1 && |TB.p| >= 1 && GcdLoop(Nat(TA.p), Nat(TB.p), g)
    ensures Nat(TA.p) + Nat(TB.p) < old(Nat(TA.p)) + old(Nat(TB.p))
  {
    hide Nat, Pow2, Gcd, GcdLoop, TrailingZeros;
    ghost var a, b := Nat(TA.p), Nat(TB.p);
    var i := Lsb(TA);
    var j := Lsb(TB);
    DropTwos(a, b, g, i, j);
    ShiftR(TA, i);
    ShiftR(TB, j);
    ghost var x, y := Nat(TA.p), Nat(TB.p);
    assert Pow2(1) == 2 by { Pow2Next(0); Pow2Zero(); }
    NatPositive(TA.p);
    var c := CmpMpi(TA, TB);
    if c >= 0 {
      SubtractHalve(x, y, g);
      var _ := SubAbs(TA, TA, TB);
      ShiftR(TA, 1);
    } else {
      LoopSymmetric(x, y, g);
      SubtractHalve(y, x, g);
      var _ := SubAbs(TB, TB, TA);
      ShiftR(TB, 1);
      LoopSymmetric(x, (y - x) / 2, g);
    }
  }

  /** G = gcd(|A|, |B|), with gcd(A, 0) coming out as 0. */
  method GcdMpi(G: Mpi, A: Mpi, B: Mpi)
    requires |B.p| >= 1
    modifies G
    ensures G.s == 1 && |G.p| >= 1 && G.Val() == GcdResult(old(Nat(A.p)), old(Nat(B.p)))
  {
    hide Nat, Pow2, Gcd, GcdLoop, GcdResult, TrailingZeros, Len;
    ghost var a, b := Nat(A.p), Nat(B.p);
    var TA := new Mpi();
    TA.Copy(A);
    var TB := new Mpi();
    TB.Copy(B);
    var lz := DropCommonTwos(TA, TB);
    GcdReduce(TA, TB);
    ShiftL(TB, lz);
    G.Copy(TB);
  }

  /** Shift out the twos both operands share. */
  method DropCommonTwos(TA: Mpi, TB: Mpi) returns (lz: nat)
    requires TA != TB && |TB.p| >= 1
    modifies TA, TB
    ensures TA.s == 1 && TB.s == 1 && |TB.p| >= 1
    ensures GcdLoop(Nat(TA.p), Nat(TB.p), GcdResult(Nat(TA.p), Nat(TB.p)))
    ensures GcdResult(Nat(TA.p), Nat(TB.p)) * Pow2(lz) == GcdResult(old(Nat(TA.p)), old(Nat(TB.p)))
  {
    hide Nat, Pow2, Gcd, GcdLoop, GcdResult, TrailingZeros;
    ghost var a, b := Nat(TA.p), Nat(TB.p);
    lz := Lsb(TA);
    var lzt := Lsb(TB);
    CommonTwos(a, b, lz, lzt, if lzt < lz then lzt else lz);
    if lzt < lz { lz := lzt; }
    ShiftR(TA, lz);
    ShiftR(TB, lz);
    TA.s, TB.s := 1, 1;
  }

  /** while( TA != 0 ) { ... }: TB ends as the gcd. */
  method GcdReduce(TA: Mpi, TB: Mpi)
    requires TA != TB && TA.s == 1 && TB.s == 1 && |TB.p| >= 1
    requires GcdLoop(Nat(TA.p), Nat(TB.p), GcdResult(Nat(TA.p), Nat(TB.p)))
    modifies TA, TB
    ensures TB.s == 1 && |TB.p| >= 1 && Nat(TB.p) == GcdResult(old(Nat(TA.p)), old(Nat(TB.p)))
  {
    hide Nat, Pow2, Gcd, GcdLoop, GcdResult, TrailingZeros;
    ghost var g := GcdResult(Nat(TA.p), Nat(TB.p));
    var c := CmpInt(TA, 0);
    while c != 0
      invariant TA.s == 1 && TB.s == 1 && |TB.p| >= 1 && c == Sgn(Nat(TA.p))
      invariant GcdLoop(Nat(TA.p), Nat(TB.p), g)
      decreases Nat(TA.p) + Nat(TB.p)
    {
      GcdTurn(TA, TB, g);
      c := CmpInt(TA, 0);
    }
    GcdAtZero(Nat(TB.p), g);
  }

  lemma GcdAtZero(b: nat, g: nat)
    requires GcdLoop(0, b, g)
    ensures b == g
  {
    GcdSymmetric(0, b);
  }
}
