/** Modular inverse by the binary extended gcd (bignum.c: mpi_inv_mod). */
module InvMod {
  import opened Arith
  import opened Divisors
  import opened Limbs
  import opened Bignum
  import opened Bits
  import opened Shift
  import opened AddSub
  import opened Multiply
  import opened Divide
  import opened Modulo
  import opened ExpMod
  import opened BinaryGcd

  /** No common divisor but 1. */
  ghost predicate Coprime(a: int, b: int) {
    forall d :: Divides(d, a) && Divides(d, b) ==> d == 1
  }

  lemma GcdOneIsCoprime(a: nat, b: nat)
    requires a + b > 0
    ensures Gcd(a, b) == 1 <==> Coprime(a, b)
  {
    GcdIsGcd(a, b);
    var g := Gcd(a, b);
    if g == 1 {
      forall d | Divides(d, a) && Divides(d, b) ensures d == 1 { DividesLe(d, 1); }
    }
  }

  /** gcd(|A|, N) = 1 carries over to A mod N. */
  lemma CoprimeMod(a: int, n: nat)
    requires n > 0 && Gcd(AbsInt(a), n) == 1
    ensures Coprime(a % n, n)
  {
    GcdOneIsCoprime(AbsInt(a), n);
    var q, r := a / n, a % n;
    forall d | Divides(d, r) && Divides(d, n) ensures d == 1 {
      DividesMultiple(d, n, q);
      DividesSum(d, n * q, r);
      assert a == n * q + r;
      if a < 0 { DividesMultiple(d, a, -1); }
    }
  }

  lemma NotBothEven(a: int, b: int)
    requires Coprime(a, b)
    ensures a % 2 == 1 || b % 2 == 1
  {
    assert a % 2 == 0 && b % 2 == 0 ==> Divides(2, a) && Divides(2, b);
  }

  /** x = u*a + v*b. */
  ghost predicate Bezout(x: int, u: int, v: int, a: int, b: int) {
    x == u * a + v * b
  }

  lemma ProductParity(u: int, a: int)
    ensures u * a % 2 == if u % 2 == 0 then 0 else a % 2
  {
    var h := u / 2;
    Assoc(2, h, a);
    if u % 2 == 0 {
      assert u == 2 * h;
      TwiceMore(u * a, h * a, 0);
    } else {
      assert u == 2 * h + 1;
      OneMoreTime(2 * h, a);
      TwiceMore(u * a, h * a, a);
    }
  }

  lemma OneMoreTime(n: int, a: int)
    ensures (n + 1) * a == n * a + a
  {
  }

  lemma TwiceMore(x: int, h: int, r: int)
    requires x == 2 * h + r
    ensures x % 2 == r % 2
  {
  }

  /** Adding b to the first and subtracting a from the second coefficient changes nothing. */
  lemma FixUpKeeps(x: int, u: int, v: int, a: int, b: int)
    requires Bezout(x, u, v, a, b)
    ensures Bezout(x, u + b, v - a, a, b)
  {
    assert (u + b) * a == u * a + b * a && (v - a) * b == v * b - a * b;
  }

  /** The fix-up makes both coefficients even, so the halvings that follow are exact. */
  lemma FixUpIsEven(x: int, u: int, v: int, a: int, b: int)
    requires Bezout(x, u, v, a, b) && x % 2 == 0 && (a % 2 == 1 || b % 2 == 1) && (u % 2 == 1 || v % 2 == 1)
    ensures (u + b) % 2 == 0 && (v - a) % 2 == 0 && Bezout(x, u + b, v - a, a, b)
  {
    FixUpKeeps(x, u, v, a, b);
    ProductParity(u, a);
    ProductParity(v, b);
    assert (u * a + v * b) % 2 == 0;
    hide Bezout;
    SumParity(u * a, v * b, if u % 2 == 0 then 0 else a % 2, if v % 2 == 0 then 0 else b % 2);
    FixUpParity(u, v, a, b);
  }

  lemma FixUpParity(u: int, v: int, a: int, b: int)
    requires (a % 2 == 1 || b % 2 == 1) && (u % 2 == 1 || v % 2 == 1)
    requires ((if u % 2 == 0 then 0 else a % 2) + (if v % 2 == 0 then 0 else b % 2)) % 2 == 0
    ensures (u + b) % 2 == 0 && (v - a) % 2 == 0
  {
  }

  lemma SumParity(p: int, q: int, r: int, s: int)
    requires p % 2 == r && q % 2 == s && (p + q) % 2 == 0
    ensures (r + s) % 2 == 0
  {
  }

  lemma HalvedBezout(x: int, u: int, v: int, a: int, b: int)
    requires Bezout(x, u, v, a, b) && x % 2 == 0 && u % 2 == 0 && v % 2 == 0
    ensures Bezout(x / 2, u / 2, v / 2, a, b)
  {
    assert u * a == 2 * (u / 2 * a) && v * b == 2 * (v / 2 * b);
  }

  /** Halving a negative even number through its magnitude is exact. */
  method HalveEven(U: Mpi)
    requires U.Valid() && |U.p| >= 1 && U.Val() % 2 == 0
    modifies U
    ensures U.Valid() && |U.p| >= 1 && U.Val() == old(U.Val()) / 2
  {
    hide Nat, Pow2;
    assert Pow2(1) == 2 by { Pow2Next(0); Pow2Zero(); }
    ghost var n: int := Nat(U.p);
    assert n % 2 == 0;
    ShiftR(U, 1);
  }

  lemma LowBitOfVal(U: Mpi)
    requires U.Valid() && |U.p| >= 1
    ensures U.p[0] % 2 == U.Val() % 2
  {
    LowBitIsParity(U.p);
  }

  /** One pass of an inner loop: T /= 2, fixing up the coefficients first when one is odd. */
  method HalveStep(T: Mpi, U: Mpi, V: Mpi, TA: Mpi, TB: Mpi)
    requires T != U && T != V && T != TA && T != TB && U != V && U != TA && U != TB && V != TA && V != TB
    requires T.Valid() && U.Valid() && V.Valid() && TA.Valid() && TB.Valid()
    requires |T.p| >= 1 && |U.p| >= 1 && |V.p| >= 1 && |TA.p| >= 1 && |TB.p| >= 1
    requires T.Val() % 2 == 0 && Bezout(T.Val(), U.Val(), V.Val(), TA.Val(), TB.Val())
    requires TA.Val() % 2 == 1 || TB.Val() % 2 == 1
    modifies T, U, V
    ensures T.Valid() && U.Valid() && V.Valid() && |T.p| >= 1 && |U.p| >= 1 && |V.p| >= 1
    ensures T.Val() == old(T.Val()) / 2 && Bezout(T.Val(), U.Val(), V.Val(), TA.Val(), TB.Val())
  {
    hide Nat, Bezout;
    ghost var x, a, b := T.Val(), TA.Val(), TB.Val();
    HalveEven(T);
    LowBitOfVal(U);
    LowBitOfVal(V);
    if U.p[0] % 2 != 0 || V.p[0] % 2 != 0 {
      FixUpIsEven(x, U.Val(), V.Val(), a, b);
      AddMpi(U, U, TB);
      SubMpi(V, V, TA);
    }
    HalvedBezout(x, U.Val(), V.Val(), a, b);
    HalveEven(U);
    HalveEven(V);
  }

  /** while( ( T.p[0] & 1 ) == 0 ) { ... }: T loses its twos; k says how it divides its old value. */
  method HalveWhileEven(T: Mpi, U: Mpi, V: Mpi, TA: Mpi, TB: Mpi) returns (ghost k: int)
    requires T != U && T != V && T != TA && T != TB && U != V && U != TA && U != TB && V != TA && V != TB
    requires T.Valid() && U.Valid() && V.Valid() && TA.Valid() && TB.Valid()
    requires |T.p| >= 1 && |U.p| >= 1 && |V.p| >= 1 && |TA.p| >= 1 && |TB.p| >= 1
    requires T.Val() > 0 && Bezout(T.Val(), U.Val(), V.Val(), TA.Val(), TB.Val())
    requires TA.Val() % 2 == 1 || TB.Val() % 2 == 1
    modifies T, U, V
    ensures T.Valid() && U.Valid() && V.Valid() && |T.p| >= 1 && |U.p| >= 1 && |V.p| >= 1
    ensures 0 < T.Val() <= old(T.Val()) && T.Val() % 2 == 1 && T.Val() * k == old(T.Val())
    ensures Bezout(T.Val(), U.Val(), V.Val(), TA.Val(), TB.Val())
  {
    hide Nat, Bezout;
    k := 1;
    LowBitOfVal(T);
    while T.p[0] % 2 == 0
      invariant T.Valid() && U.Valid() && V.Valid() && |T.p| >= 1 && |U.p| >= 1 && |V.p| >= 1
      invariant 0 < T.Val() <= old(T.Val()) && T.Val() * k == old(T.Val()) && T.p[0] % 2 == T.Val() % 2
      invariant Bezout(T.Val(), U.Val(), V.Val(), TA.Val(), TB.Val())
      decreases T.Val()
    {
      HalfTimes(T.Val(), k);
      HalveStep(T, U, V, TA, TB);
      k := 2 * k;
      LowBitOfVal(T);
    }
  }

  lemma HalfTimes(x: int, k: int)
    requires x % 2 == 0
    ensures x / 2 * (2 * k) == x * k
  {
    assert x == 2 * (x / 2);
    assert x / 2 * (2 * k) == (2 * (x / 2)) * k;
  }

  lemma CoprimePart(x: int, y: int, k: int, b: int)
    requires x * k == y && Coprime(y, b)
    ensures Coprime(x, b)
  {
    forall d | Divides(d, x) && Divides(d, b) ensures d == 1 { DividesMultiple(d, x, k); }
  }

  lemma CoprimeSymmetric(a: int, b: int)
    requires Coprime(a, b)
    ensures Coprime(b, a)
  {
  }

  lemma CoprimeSubtract(a: int, b: int)
    requires Coprime(a, b)
    ensures Coprime(a - b, b)
  {
    forall d | Divides(d, a - b) && Divides(d, b) ensures d == 1 {
      DividesSum(d, a - b, b);
      assert a - b + b == a;
    }
  }

  lemma BezoutSubtract(x: int, u: int, v: int, y: int, w: int, z: int, a: int, b: int)
    requires Bezout(x, u, v, a, b) && Bezout(y, w, z, a, b)
    ensures Bezout(x - y, u - w, v - z, a, b)
  {
    assert (u - w) * a == u * a - w * a && (v - z) * b == v * b - z * b;
  }

  /** T -= S with its coefficients. */
  method SubtractRow(T: Mpi, U: Mpi, V: Mpi, S: Mpi, W: Mpi, Z: Mpi, ghost a: int, ghost b: int)
    requires T != U && T != V && U != V && T != S && T != W && T != Z && U != S && U != W && U != Z && V != S && V != W && V != Z
    requires T.Valid() && U.Valid() && V.Valid() && S.Valid() && W.Valid() && Z.Valid()
    requires |T.p| >= 1 && |U.p| >= 1 && |V.p| >= 1 && |S.p| >= 1 && |W.p| >= 1 && |Z.p| >= 1
    requires Bezout(T.Val(), U.Val(), V.Val(), a, b) && Bezout(S.Val(), W.Val(), Z.Val(), a, b)
    modifies T, U, V
    ensures T.Valid() && U.Valid() && V.Valid() && |T.p| >= 1 && |U.p| >= 1 && |V.p| >= 1
    ensures T.Val() == old(T.Val()) - S.Val() && Bezout(T.Val(), U.Val(), V.Val(), a, b)
  {
    hide Nat, Bezout;
    BezoutSubtract(T.Val(), U.Val(), V.Val(), S.Val(), W.Val(), Z.Val(), a, b);
    SubMpi(T, T, S);
    SubMpi(U, U, W);
    SubMpi(V, V, Z);
  }

  /** The objects of the two rows and the two fixed operands are eight different ones. */
  ghost predicate Distinct(TU: Mpi, U1: Mpi, U2: Mpi, TV: Mpi, V1: Mpi, V2: Mpi, TA: Mpi, TB: Mpi) {
    TU != U1 && TU != U2 && TU != TV && TU != V1 && TU != V2 && TU != TA && TU != TB
    && U1 != U2 && U1 != TV && U1 != V1 && U1 != V2 && U1 != TA && U1 != TB
    && U2 != TV && U2 != V1 && U2 != V2 && U2 != TA && U2 != TB
    && TV != V1 && TV != V2 && TV != TA && TV != TB
    && V1 != V2 && V1 != TA && V1 != TB && V2 != TA && V2 != TB
  }

  /** T = U*TA + V*TB, with T, U and V allocated. */
  ghost predicate Row(T: Mpi, U: Mpi, V: Mpi, a: int, b: int)
    reads T, U, V
  {
    T.Valid() && U.Valid() && V.Valid() && |T.p| >= 1 && |U.p| >= 1 && |V.p| >= 1
    && Bezout(T.Val(), U.Val(), V.Val(), a, b)
  }

  /** One turn of the do loop, for TU > 0. */
  method InvTurn(TU: Mpi, U1: Mpi, U2: Mpi, TV: Mpi, V1: Mpi, V2: Mpi, TA: Mpi, TB: Mpi)
    requires Distinct(TU, U1, U2, TV, V1, V2, TA, TB)
    requires TA.Valid() && TB.Valid() && |TA.p| >= 1 && |TB.p| >= 1 && (TA.Val() % 2 == 1 || TB.Val() % 2 == 1)
    requires Row(TU, U1, U2, TA.Val(), TB.Val()) && Row(TV, V1, V2, TA.Val(), TB.Val())
    requires TU.Val() > 0 && TV.Val() > 0 && Coprime(TU.Val(), TV.Val())
    modifies TU, U1, U2, TV, V1, V2
    ensures Row(TU, U1, U2, TA.Val(), TB.Val()) && Row(TV, V1, V2, TA.Val(), TB.Val())
    ensures TU.Val() >= 0 && TV.Val() > 0 && Coprime(TU.Val(), TV.Val())
    ensures TU.Val() + TV.Val() < old(TU.Val()) + old(TV.Val())
  {
    hide Nat, Bezout, Coprime;
    ghost var x, y := TU.Val(), TV.Val();
    ghost var k := HalveWhileEven(TU, U1, U2, TA, TB);
    CoprimePart(TU.Val(), x, k, y);
    CoprimeSymmetric(TU.Val(), y);
    ghost var l := HalveWhileEven(TV, V1, V2, TA, TB);
    CoprimePart(TV.Val(), y, l, TU.Val());
    var c := CmpMpi(TU, TV);
    if c >= 0 {
      CoprimeSymmetric(TV.Val(), TU.Val());
      CoprimeSubtract(TU.Val(), TV.Val());
      SubtractRow(TU, U1, U2, TV, V1, V2, TA.Val(), TB.Val());
    } else {
      CoprimeSubtract(TV.Val(), TU.Val());
      SubtractRow(TV, V1, V2, TU, U1, U2, TA.Val(), TB.Val());
      CoprimeSymmetric(TV.Val(), TU.Val());
    }
  }

  lemma CoprimeZero(y: int)
    requires y > 0 && Coprime(0, y)
    ensures y == 1
  {
    DividesZero(y);
    DividesRefl(y);
  }

  lemma BezoutInverse(v: int, w: int, a: int, n: int)
    requires n > 0 && Bezout(1, v, w, a, n)
    ensures Cong(a * v, 1, n)
  {
    assert a * v == 1 + (-w) * n by { assert (-w) * n == -(w * n); }
    CongIntro(a * v, 1, -w, n);
  }

  lemma InitialRows(a: int, n: int)
    ensures Bezout(a, 1, 0, a, n) && Bezout(n, 0, 1, a, n)
  {
  }

  /** V1 such that A*V1 = 1 (mod N), not yet reduced. */
  method InvLoop(TA: Mpi, N: Mpi) returns (V1: Mpi)
    requires TA.Valid() && N.Valid() && |TA.p| >= 1 && |N.p| >= 1
    requires TA.Val() > 0 && N.Val() > 0 && Coprime(TA.Val(), N.Val())
    ensures fresh(V1) && V1.Valid() && |V1.p| >= 1 && Cong(TA.Val() * V1.Val(), 1, N.Val())
  {
    hide Nat, Bezout, Coprime, Len, Cong;
    ghost var a, n := TA.Val(), N.Val();
    NotBothEven(a, n);
    InitialRows(a, n);
    var TU := NewCopy(TA);
    var TB := NewCopy(N);
    var TV := NewCopy(N);
    var U1 := NewInt(1);
    var U2 := NewInt(0);
    V1 := NewInt(0);
    var V2 := NewInt(1);
    assert Row(TU, U1, U2, a, n) && Row(TV, V1, V2, a, n) && Distinct(TU, U1, U2, TV, V1, V2, TA, TB);
    InvTurns(TU, U1, U2, TV, V1, V2, TA, TB);
  }

  /** do { ... } while( TU != 0 ); */
  method InvTurns(TU: Mpi, U1: Mpi, U2: Mpi, TV: Mpi, V1: Mpi, V2: Mpi, TA: Mpi, TB: Mpi)
    requires Distinct(TU, U1, U2, TV, V1, V2, TA, TB)
    requires TA.Valid() && TB.Valid() && |TA.p| >= 1 && |TB.p| >= 1 && (TA.Val() % 2 == 1 || TB.Val() % 2 == 1)
    requires Row(TU, U1, U2, TA.Val(), TB.Val()) && Row(TV, V1, V2, TA.Val(), TB.Val())
    requires TU.Val() > 0 && TV.Val() > 0 && Coprime(TU.Val(), TV.Val()) && TB.Val() > 0
    modifies TU, U1, U2, TV, V1, V2
    ensures V1.Valid() && |V1.p| >= 1 && Cong(TA.Val() * V1.Val(), 1, TB.Val())
  {
    hide Nat, Bezout, Coprime, Cong;
    var c := 1;
    while c != 0
      invariant Row(TU, U1, U2, TA.Val(), TB.Val()) && Row(TV, V1, V2, TA.Val(), TB.Val())
      invariant TU.Val() >= 0 && TV.Val() > 0 && Coprime(TU.Val(), TV.Val())
      invariant c != 0 <==> TU.Val() > 0
      decreases TU.Val() + TV.Val()
    {
      InvTurn(TU, U1, U2, TV, V1, V2, TA, TB);
      c := CmpInt(TU, 0);
    }
    CoprimeZero(TV.Val());
    BezoutInverse(V1.Val(), V2.Val(), TA.Val(), TB.Val());
  }

  method NewCopy(A: Mpi) returns (X: Mpi)
    requires A.Valid() && |A.p| >= 1
    ensures fresh(X) && X.Valid() && |X.p| >= 1 && X.Val() == A.Val()
  {
    hide Nat, Len;
    X := new Mpi();
    X.Copy(A);
  }

  method NewInt(z: Sint) returns (X: Mpi)
    ensures fresh(X) && X.Valid() && |X.p| >= 1 && X.Val() == z
  {
    X := new Mpi();
    X.Lset(z);
  }

  /** X is the inverse of A modulo N, in [0, N). */
  ghost predicate IsInverse(x: int, a: int, n: int) {
    0 <= x < n && (a * x) % n == 1
  }

  lemma ReducedInverse(v: int, r: int, a: int, n: int)
    requires n > 1 && r == a % n && Cong(r * v, 1, n)
    ensures IsInverse(v % n, a, n)
  {
    CongMod(a, n);
    CongMod(v, n);
    CongMul(r, a, v % n, v, n);
    CongMul(r, a, v, v, n);
    CongMul(a, a, v % n, v, n);
    ModSmall(1, n);
  }

  /** At most one inverse lies in [0, N). */
  lemma InverseUnique(x: int, y: int, a: int, n: int)
    requires n > 1 && IsInverse(x, a, n) && IsInverse(y, a, n)
    ensures x == y
  {
    ModSmall(1, n);
    assert Cong(a * x, 1, n) && Cong(a * x, a * y, n);
    CongCancel(a, x, x, y, n);
    ModSmall(x, n);
    ModSmall(y, n);
  }

  /** An inverse exists exactly when A and N are coprime. */
  lemma InverseNeedsCoprime(x: int, a: int, n: int)
    requires n > 1 && IsInverse(x, a, n)
    ensures Gcd(AbsInt(a), n) == 1
  {
    var q := a * x / n;
    assert a * x == n * q + 1;
    GcdOneIsCoprime(AbsInt(a), n);
    forall d | Divides(d, AbsInt(a)) && Divides(d, n) ensures d == 1 {
      if a < 0 { DividesMultiple(d, -a, -1); }
      DividesMultiple(d, a, x);
      DividesMultiple(d, n, q);
      DividesSum(d, a * x, n * q);
      DividesLe(d, 1);
    }
  }

  /** X = A^-1 mod N. Refused for N <= 0, and exactly when A has no inverse modulo N. */
  method InvModMpi(X: Mpi, A: Mpi, N: Mpi) returns (r: Ret)
    requires A.Valid() && N.Valid() && |N.p| >= 1 && N.Val() != 1
    modifies X
    ensures r == if old(N.Val()) <= 0 then Fail(BadInputData)
                 else if Gcd(old(Nat(A.p)), old(Nat(N.p))) != 1 then Fail(NotAcceptable) else Ok
    ensures r.Fail? ==> X.s == old(X.s) && X.p == old(X.p)
    ensures r.Ok? ==> X.s == 1 && |X.p| >= 1 && IsInverse(X.Val(), old(A.Val()), old(N.Val()))
  {
    hide Nat, Gcd, GcdResult, Coprime, Cong, Len, IsInverse;
    var c := CmpInt(N, 0);
    if c <= 0 { return Fail(BadInputData); }
    ghost var a, n := A.Val(), N.Val();
    var G := new Mpi();
    GcdMpi(G, A, N);
    GcdResultPositive(Nat(A.p), Nat(N.p));
    c := CmpInt(G, 1);
    if c != 0 { return Fail(NotAcceptable); }
    CoprimeMod(a, n);
    CoprimeNonzero(a, n);
    NatEmpty(A.p);
    var TA := new Mpi();
    var _ := ModMpi(TA, A, N);
    var V1 := InvLoop(TA, N);
    ReducedInverse(V1.Val(), TA.Val(), a, n);
    Reduce(V1, N);
    InverseNonzero(V1.Val(), a, n);
    X.Copy(V1);
    return Ok;
  }

  /**
   * The modulus 1 passes the test for an inverse, TU starts as A mod 1 = 0, and however often the
   * first inner loop turns, TU stays 0 and its guard, the low bit of TU being clear, stays true.
   */
  method ModulusOneTurns(A: Mpi, N: Mpi, turns: nat) returns (TU: Mpi)
    requires A.Valid() && N.Valid() && |A.p| >= 1 && |N.p| >= 1 && N.Val() == 1
    ensures Gcd(Nat(A.p), Nat(N.p)) == 1
    ensures |TU.p| >= 1 && TU.Val() == 0 && TU.p[0] % 2 == 0
  {
    GcdOfOne(Nat(A.p));
    ModOne(A.Val());
    ValOfOne(N);
    hide Nat, Gcd, Len;
    var TA := new Mpi();
    var _ := ModMpi(TA, A, N);
    TU := FirstTurns(TA, N, turns);
  }

  method FirstTurns(TA: Mpi, N: Mpi, turns: nat) returns (TU: Mpi)
    requires TA.Valid() && N.Valid() && |TA.p| >= 1 && |N.p| >= 1 && TA.Val() == 0 && N.Val() == 1
    ensures |TU.p| >= 1 && TU.Val() == 0 && TU.p[0] % 2 == 0
  {
    hide Nat, Len, Bezout;
    InitialRows(0, 1);
    TU := NewCopy(TA);
    var TB := NewCopy(N);
    var U1 := NewInt(1);
    var U2 := NewInt(0);
    ZeroTurns(TU, U1, U2, TA, TB, turns);
    LowBitOfVal(TU);
  }

  /** while( ( TU.p[0] & 1 ) == 0 ), cut off after some turns. */
  method ZeroTurns(T: Mpi, U: Mpi, V: Mpi, TA: Mpi, TB: Mpi, turns: nat)
    requires T != U && T != V && T != TA && T != TB && U != V && U != TA && U != TB && V != TA && V != TB
    requires Row(T, U, V, TA.Val(), TB.Val()) && TA.Valid() && TB.Valid() && |TA.p| >= 1 && |TB.p| >= 1
    requires T.Val() == 0 && TB.Val() % 2 == 1
    modifies T, U, V
    ensures Row(T, U, V, TA.Val(), TB.Val()) && T.Val() == 0
  {
    hide Nat, Bezout;
    for i := 0 to turns
      invariant Row(T, U, V, TA.Val(), TB.Val()) && T.Val() == 0
    {
      HalveStep(T, U, V, TA, TB);
    }
  }

  lemma ValOfOne(N: Mpi)
    requires N.Valid() && N.Val() == 1
    ensures Nat(N.p) == 1
  {
  }

  lemma GcdOfOne(a: nat)
    ensures Gcd(a, 1) == 1
  {
    ModOne(a);
  }

  lemma ModOne(x: int)
    ensures x % 1 == 0
  {
  }

  lemma InverseNonzero(x: int, a: int, n: int)
    requires n > 1 && IsInverse(x, a, n)
    ensures x > 0
  {
    assert a * 0 == 0;
    ModSmall(0, n);
  }

  lemma GcdResultPositive(a: nat, b: nat)
    requires b > 0
    ensures GcdResult(a, b) == Gcd(a, b)
  {
  }

  lemma CoprimeNonzero(a: int, n: int)
    requires n > 1 && Coprime(a % n, n)
    ensures a % n > 0 && a != 0
  {
    DividesZero(n);
    DividesRefl(n);
    ModSmall(0, n);
  }
}
