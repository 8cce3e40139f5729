/** Long division and reduction (bignum.c: mpi_div_mpi, mpi_div_int, mpi_mod_mpi, mpi_mod_int). */
module Divide {
  import opened Arith
  import opened Limbs
  import opened Bignum
  import opened Bits
  import opened Shift
  import opened AddSub
  import opened Multiply

  // ---------- what division means ----------

  /** C division: truncation towards zero. */
  function TQuot(a: int, b: int): (q: int)
    requires b != 0
  {
    var q := AbsInt(a) / AbsInt(b);
    if (a < 0) != (b < 0) then 0 - q else q
  }

  function TRem(a: int, b: int): (r: int)
    requires b != 0
  {
    var r := AbsInt(a) % AbsInt(b);
    if a < 0 then 0 - r else r
  }

  ghost predicate IsDivision(a: int, b: int, q: int, r: int) {
    a == q * b + r && AbsInt(r) < AbsInt(b) && (r == 0 || (r < 0 <==> a < 0))
  }

  /** Products seen through the signs of their factors. */
  lemma SignedFactors(q: int, b: int)
    ensures (0 - q) * b == 0 - q * b && q * (0 - b) == 0 - q * b && (0 - q) * (0 - b) == q * b
  {
  }

  lemma TruncatedDivisionHolds(a: int, b: int)
    requires b != 0
    ensures IsDivision(a, b, TQuot(a, b), TRem(a, b))
  {
    SignedFactors(AbsInt(a) / AbsInt(b), AbsInt(b));
  }

  /** A = Q*B + R with |R| < |B| and R zero or of A's sign holds of TQuot and TRem and of nothing else. */
  lemma TruncatedDivision(a: int, b: int, q: int, r: int)
    requires b != 0
    ensures IsDivision(a, b, q, r) <==> q == TQuot(a, b) && r == TRem(a, b)
  {
    TruncatedDivisionHolds(a, b);
    if IsDivision(a, b, q, r) {
      var q' := if (a < 0) != (b < 0) then 0 - q else q;
      SignedFactors(q, b);
      DivUnique(AbsInt(a), AbsInt(b), q', AbsInt(r));
    }
  }

  /**
   * The quotient that is stored when Q is the object of A, of B, or of both: the source reads the
   * signs of the operands after Q has taken the positive sign of the quotient's magnitude.
   */
  function AliasedQuot(a: int, b: int, qa: bool, qb: bool): (q: int)
    requires b != 0
  {
    TQuot(if qa then AbsInt(a) else a, if qb then AbsInt(b) else b)
  }

  /** The remainder then: the sign of A is read last, and a small A has been overwritten before it is copied. */
  function AliasedRem(a: int, b: int, qa: bool, qb: bool): (r: int)
    requires b != 0
  {
    if !qa then TRem(a, b)
    else if AbsInt(a) < AbsInt(b) then 0
    else if b < 0 && !qb then 0 - AbsInt(a) % AbsInt(b)
    else AbsInt(a) % AbsInt(b)
  }

  /** Storing the quotient over an operand is right exactly when that operand's sign does not matter. */
  lemma AliasedDivision(a: int, b: int, qa: bool, qb: bool)
    requires b != 0 && (qa && qb ==> a == b)
    ensures AliasedQuot(a, b, qa, qb) == TQuot(a, b) <==>
      AbsInt(a) < AbsInt(b) || (qa && qb) || ((qa ==> a > 0) && (qb ==> b > 0))
    ensures AliasedRem(a, b, qa, qb) == TRem(a, b) <==>
      !qa || (if AbsInt(a) < AbsInt(b) then a == 0 else AbsInt(a) % AbsInt(b) == 0 || (a < 0 <==> b < 0))
  {
    QuotientPositive(AbsInt(a), AbsInt(b));
    if qa && qb { DivUnique(AbsInt(a), AbsInt(b), 1, 0); }
  }

  /** Between positive operands aliasing does not matter. */
  lemma PositiveQuot(a: nat, b: nat, qa: bool, qb: bool)
    requires b > 0
    ensures AliasedQuot(a, b, qa, qb) == a / b
  {
  }

  lemma QuotientPositive(a: nat, b: nat)
    requires b > 0
    ensures a / b == 0 <==> a < b
  {
    DivBounds(a, b);
  }

  // ---------- normalization ----------

  lemma LenFromBits(v: nat)
    ensures Len(v) == BitsToLimbs(BitLen(v))
  {
    hide Pow, Pow2, Len, BitLen;
    var n := BitsToLimbs(BitLen(v));
    BitLenBounds(v);
    BitLenPositive(v);
    PowIsPow2(n);
    Pow2Mono(BitLen(v), BIL * n);
    if v > 0 {
      PowIsPow2(n - 1);
      Pow2Mono(BIL * (n - 1), BitLen(v) - 1);
    }
    LenUnique(v, n);
  }

  lemma LenOfShift(v: nat, k: nat)
    requires v > 0
    ensures v * Pow2(k) > 0
    ensures BitsToLimbs(BitLen(v) + k) == Len(v * Pow2(k)) >= Len(v)
    ensures k < BIL ==> Len(v * Pow2(k)) <= Len(v) + 1
  {
    hide Pow, Pow2, Len, BitLen;
    MulMono(v, 1, Pow2(k));
    BitLenShift(v, k);
    LenFromBits(v);
    LenFromBits(v * Pow2(k));
  }

  /** Shift both operands left until the divisor's top limb has BIL-1 significant bits. */
  method Normalize(X: Mpi, Y: Mpi) returns (k: nat)
    requires X != Y && Nat(Y.p) > 0 && Nat(X.p) >= Nat(Y.p)
    requires |X.p| == Len(Nat(X.p)) && |Y.p| == Len(Nat(Y.p))
    modifies X, Y
    ensures X.s == old(X.s) && Y.s == old(Y.s)
    ensures Nat(X.p) == old(Nat(X.p)) * Pow2(k) && Nat(Y.p) == old(Nat(Y.p)) * Pow2(k)
    ensures |X.p| == Len(Nat(X.p)) <= |old(X.p)| + 1 && |Y.p| == Len(Nat(Y.p))
  {
    hide Nat, Pow, Pow2, Len, BitLen;
    LenZero(Nat(X.p));
    LenZero(Nat(Y.p));
    k := Msb(Y);
    k := k % BIL;
    if k < BIL - 1 {
      k := BIL - 1 - k;
      LenOfShift(Nat(X.p), k);
      LenOfShift(Nat(Y.p), k);
      ShiftL(X, k);
      ShiftL(Y, k);
    } else {
      k := 0;
      Pow2Zero();
    }
  }

  // ---------- the leading quotient digit ----------

  /** x++ and x-- on a limb wrap around. */
  function Inc(x: Limb): (r: Limb) {
    (x + 1) % BASE
  }

  function Dec(x: Limb): (r: Limb) {
    (x + (BASE - 1)) % BASE
  }

  lemma IncDec(x: Limb)
    ensures Dec(Inc(x)) == x
    ensures x > 0 ==> Dec(x) == x - 1
    ensures x + 1 < BASE ==> Inc(x) == x + 1
  {
  }

  lemma DigitStep(z: nat, y: nat, x: int, x0: int)
    requires z * y + x == x0
    ensures (z + 1) * y + (x - y) == x0
  {
  }

  lemma FirstDigitFits(z: nat, y: nat, x: nat, x0: nat, P: nat)
    requires z * y + x == x0 && x >= y >= P > 0 && x0 < BASE * P
    ensures z + 1 < BASE
  {
    DigitStep(z, y, x, x0);
    MulMono(z + 1, P, y);
    MulCancelLess(P, z + 1, BASE);
  }

  /** while( X >= Y ) { Z.p[d]++; X -= Y; } */
  method FirstDigit(X: Mpi, Y: Mpi, Z: Mpi, d: nat, ghost P: nat)
    requires X != Y && X != Z && Y != Z && X.s == 1 && Y.s == 1
    requires 0 < P <= Nat(Y.p) && Nat(X.p) < BASE * P && |X.p| >= 1 && |Y.p| >= 1
    requires d < |Z.p| && forall k :: 0 <= k < |Z.p| ==> Z.p[k] == 0
    modifies X, Z
    ensures X.Valid() && 0 <= X.Val() < Nat(Y.p) && |X.p| >= |old(X.p)|
    ensures Z.s == old(Z.s) && |Z.p| == |old(Z.p)|
    ensures forall k :: 0 <= k < |Z.p| && k != d ==> Z.p[k] == 0
    ensures Z.p[d] * Nat(Y.p) + X.Val() == old(Nat(X.p))
  {
    hide Nat, Inc, Dec;
    ghost var x0, y := Nat(X.p), Nat(Y.p);
    var c := CmpMpi(X, Y);
    while c >= 0
      invariant X.Valid() && X.Val() >= 0 && c == Sgn(X.Val() - y) && |X.p| >= |old(X.p)|
      invariant Z.s == old(Z.s) && |Z.p| == |old(Z.p)|
      invariant forall k :: 0 <= k < |Z.p| && k != d ==> Z.p[k] == 0
      invariant Z.p[d] * y + X.Val() == x0
      decreases X.Val()
    {
      FirstDigitFits(Z.p[d], y, X.Val(), x0, P);
      DigitStep(Z.p[d], y, X.Val(), x0);
      IncDec(Z.p[d]);
      Z.p := Z.p[d := Inc(Z.p[d])];
      SubMpi(X, X, Y);
      c := CmpMpi(X, Y);
    }
  }

  // ---------- the estimate of one quotient digit ----------

  /**
   * x and y are the dividend and the shifted divisor at some scale; x3 and y2 are their leading
   * three and two limbs in units of w.
   */
  ghost predicate Leading32(x: nat, y: nat, x3: nat, y2: nat, w: nat) {
    x3 * w <= x < (x3 + 1) * w && y2 * w <= y < (y2 + 1) * w && y2 >= BASE
  }

  /** The true digit passes the test of the correction loop. */
  lemma DigitPasses(x: nat, y: nat, x3: nat, y2: nat, w: nat, q: nat)
    requires Leading32(x, y, x3, y2, w) && q * y <= x
    ensures q * y2 <= x3
  {
    MulMono(q, y2 * w, y);
    assert q * (y2 * w) == w * (q * y2);
    assert (x3 + 1) * w == w * (x3 + 1);
    MulCancelLess(w, q * y2, x3 + 1);
  }

  /** What passes the test of the correction loop is at most one too large. */
  lemma AtMostOneTooLarge(x: nat, y: nat, x3: nat, y2: nat, w: nat, q: nat, q': nat)
    requires Leading32(x, y, x3, y2, w) && x < (q + 1) * y && q < BASE && q' * y2 <= x3
    ensures q' <= q + 1
  {
    TooLarge1(x, y, x3, y2, w, q, q');
    assert (q + 1) * (y2 + 1) == (q + 1) * y2 + (q + 1) <= (q + 1) * y2 + y2 == (q + 2) * y2;
    MulCancelLess(y2, q', q + 2);
  }

  lemma TooLarge1(x: nat, y: nat, x3: nat, y2: nat, w: nat, q: nat, q': nat)
    requires Leading32(x, y, x3, y2, w) && x < (q + 1) * y && q' * y2 <= x3
    ensures q' * y2 < (q + 1) * (y2 + 1)
  {
    MulMono(w, q' * y2, x3);
    MulMono(q + 1, y, (y2 + 1) * w);
    assert (q + 1) * ((y2 + 1) * w) == w * ((q + 1) * (y2 + 1));
    MulCancelLess(w, q' * y2, (q + 1) * (y2 + 1));
  }

  /** The estimate from two limbs over one is never below a digit that passes the sharper test. */
  lemma EstimateNotBelow(x3: nat, y2: nat, q: nat)
    requires q < BASE && q * y2 <= x3 && y2 / BASE > 0
    ensures q <= x3 / BASE / (y2 / BASE)
    ensures x3 / BASE / BASE >= y2 / BASE ==> q <= BASE - 1
  {
    var yt := y2 / BASE;
    MulMono(q, BASE * yt, y2);
    assert q * (BASE * yt) == BASE * (q * yt);
    var x2 := x3 / BASE;
    assert q * yt <= x2;
    DivBounds(x2, yt);
    MulCancelLess(yt, q, x2 / yt + 1);
  }

  function Cap(r: nat): Limb {
    if r > BASE - 1 then BASE - 1 else r
  }

  /** The double-width branch of the quotient estimate. */
  method EstimateDigit(xi: Limb, xi1: Limb, yt: Limb) returns (q: Limb)
    requires yt > 0
    ensures q == if xi >= yt then BASE - 1 else (xi * BASE + xi1) / yt
  {
    if xi >= yt {
      q := BASE - 1;   // ~0
    } else {
      var r := xi * BASE + xi1;
      MulMono(BASE, xi + 1, yt);
      DivLess(r, yt, BASE);
      q := Cap(r / yt);
    }
  }

  lemma NatTwo(p: seq<Limb>)
    requires |p| >= 2 && forall k :: 2 <= k < |p| ==> p[k] == 0
    ensures Nat(p) == p[0] + BASE * p[1]
  {
    NatHigh(p, 2);
    NatOne(p[0]);
    NatSnoc(p, 1);
    assert p[..1] == [p[0]];
    assert Pow(1) == BASE * Pow(0);
  }

  lemma NatThree(p: seq<Limb>)
    requires |p| >= 3 && forall k :: 3 <= k < |p| ==> p[k] == 0
    ensures Nat(p) == p[0] + BASE * p[1] + BASE * BASE * p[2]
  {
    hide Nat, Pow;
    NatSplit(p, 1);
    assert p[..1] == [p[0]];
    NatOne(p[0]);
    NatTwo(p[1..]);
    PowNext(0);
  }

  method SetTwo(T: Mpi, x0: Limb, x1: Limb)
    requires |T.p| >= 2
    modifies T
    ensures T.s == 1 && |T.p| == |old(T.p)| && Nat(T.p) == x0 + BASE * x1
  {
    T.Lset(0);
    T.p := T.p[0 := x0];
    T.p := T.p[1 := x1];
    NatTwo(T.p);
  }

  method SetThree(T: Mpi, x0: Limb, x1: Limb, x2: Limb)
    requires |T.p| >= 3
    modifies T
    ensures T.s == 1 && |T.p| == |old(T.p)| && Nat(T.p) == x0 + BASE * x1 + BASE * BASE * x2
  {
    T.Lset(0);
    T.p := T.p[0 := x0];
    T.p := T.p[1 := x1];
    T.p := T.p[2 := x2];
    NatThree(T.p);
  }

  /** Compare the leading two limbs of the divisor times q with the leading three of the dividend. */
  method TestDigit(q: Limb, y1: Limb, y0: Limb, x2: Limb, x1: Limb, x0: Limb, T1: Mpi, T2: Mpi) returns (c: int)
    requires T1 != T2 && |T1.p| >= 2 && |T2.p| >= 3
    modifies T1, T2
    ensures |T1.p| >= 2 && |T2.p| >= 3
    ensures c == Sgn(q * (y0 + BASE * y1) - (x0 + BASE * x1 + BASE * BASE * x2))
  {
    hide Nat, Len, BitLen;
    ghost var y, x := y0 + BASE * y1, x0 + BASE * x1 + BASE * BASE * x2;
    SetTwo(T1, y0, y1);
    MulInt(T1, T1, q);
    assert T1.Val() == y * q == q * y;
    SetThree(T2, x0, x1, x2);
    assert T2.Val() == x;
    c := CmpMpi(T1, T2);
  }

  /** Z.p++; do { Z.p--; } while( (Y.p[t], Y.p[t-1]) * Z.p > (X.p[i], X.p[i-1], X.p[i-2]) ) */
  method CorrectDigit(q0: Limb, ghost q: nat, y1: Limb, y0: Limb, x2: Limb, x1: Limb, x0: Limb, T1: Mpi, T2: Mpi)
    returns (q': Limb)
    requires T1 != T2 && |T1.p| >= 2 && |T2.p| >= 3
    requires q <= q0 && q * (y0 + BASE * y1) <= x0 + BASE * x1 + BASE * BASE * x2
    modifies T1, T2
    ensures |T1.p| >= 2 && |T2.p| >= 3
    ensures q <= q' <= q0 && q' * (y0 + BASE * y1) <= x0 + BASE * x1 + BASE * BASE * x2
  {
    hide Inc, Dec;
    ghost var x3, y2 := x0 + BASE * x1 + BASE * BASE * x2, y0 + BASE * y1;
    q' := Inc(q0);
    var c, first := 1, true;
    IncDec(q0);
    while first || c > 0
      invariant first ==> q' == Inc(q0)
      invariant !first ==> q <= q' <= q0
      invariant !first && c > 0 ==> q' * y2 > x3
      invariant !first && c <= 0 ==> q' * y2 <= x3
      invariant |T1.p| >= 2 && |T2.p| >= 3
      decreases if first then BASE else q'
    {
      if !first {
        MulCancelLess(y2, q, q');
        IncDec(q');
      }
      q' := Dec(q');
      c := TestDigit(q', y1, y0, x2, x1, x0, T1, T2);
      first := false;
    }
  }

  // ---------- one step of the division ----------

  /** The leading three limbs of the dividend, as T2 is loaded. */
  function Three(p: seq<Limb>, i: nat): (r: nat)
    requires 1 <= i < |p|
  {
    (if i < 2 then 0 else p[i - 2]) + BASE * p[i - 1] + BASE * BASE * p[i]
  }

  /** The leading two limbs of the divisor, as T1 is loaded. */
  function Two(p: seq<Limb>, t: nat): (r: nat)
    requires t < |p|
  {
    (if t < 1 then 0 else p[t - 1]) + BASE * p[t]
  }

  lemma TopThree(p: seq<Limb>, i: nat)
    requires 2 <= i < |p| && forall k :: i < k < |p| ==> p[k] == 0
    ensures Three(p, i) * Pow(i - 2) <= Nat(p) < (Three(p, i) + 1) * Pow(i - 2)
  {
    hide Nat, Pow;
    NatSplit(p, i - 2);
    NatBound(p[..i - 2]);
    NatThree(p[i - 2..]);
    OneMore(Three(p, i), Pow(i - 2));
  }

  lemma OneMore(x: nat, w: nat)
    ensures (x + 1) * w == x * w + w
  {
  }

  lemma TopTwo(p: seq<Limb>, t: nat)
    requires 1 <= t < |p| && forall k :: t < k < |p| ==> p[k] == 0
    ensures Two(p, t) * Pow(t - 1) <= Nat(p) < (Two(p, t) + 1) * Pow(t - 1)
  {
    hide Nat, Pow;
    NatSplit(p, t - 1);
    NatBound(p[..t - 1]);
    NatTwo(p[t - 1..]);
    OneMore(Two(p, t), Pow(t - 1));
  }

  lemma OneLimb(p: seq<Limb>)
    requires |p| >= 1 && forall k :: 0 < k < |p| ==> p[k] == 0
    ensures Nat(p) == p[0]
  {
    NatZero(p[1..]);
  }

  lemma ScaleRange(lo: nat, v: nat, hi: nat, k: nat, w: nat, a: nat, b: nat)
    requires lo == a * w && hi == b * w && lo <= v < hi && k >= 1
    ensures a * (w * k) <= v * k < b * (w * k)
  {
    MulMono(k, lo, v);
    MulMono(k, v + 1, hi);
    assert k * (a * w) == a * (w * k) && k * (b * w) == b * (w * k);
  }

  lemma LeadingLimbs(p: seq<Limb>, y: seq<Limb>, i: nat, t: nat) returns (c: nat, w: nat)
    requires t < i < |p| && t < |y| && y[t] != 0
    requires forall k :: i < k < |p| ==> p[k] == 0
    requires forall k :: t < k < |y| ==> y[k] == 0
    ensures c > 0 && Leading32(c * Nat(p), c * (Nat(y) * Pow(i - t - 1)), Three(p, i), Two(y, t), w)
  {
    hide Nat, Pow;
    if i == 1 {
      c, w := BASE, 1;
      assert Nat(p) == p[0] + BASE * p[1] by { NatTwo(p); }
      OneLimb(y);
      PowNext(0);
    } else {
      c, w := 1, Pow(i - 2);
      TopThree(p, i);
      ShiftedTopTwo(y, i, t);
    }
  }

  /** The top two limbs of y bound the divisor as it stands under the dividend. */
  lemma ShiftedTopTwo(y: seq<Limb>, i: nat, t: nat)
    requires t < |y| && t < i && 2 <= i && forall k :: t < k < |y| ==> y[k] == 0
    ensures Two(y, t) * Pow(i - 2) <= Nat(y) * Pow(i - t - 1) < (Two(y, t) + 1) * Pow(i - 2)
  {
    hide Nat, Pow;
    if t == 0 {
      OneLimb(y);
      PowNext(i - 2);
      var v, w := y[0], Pow(i - 2);
      Exchange(v, BASE, w);
      Assoc(BASE, v, w);
      OneMore(BASE * v, w);
    } else {
      TopTwo(y, t);
      PowAdd(t - 1, i - t - 1);
      var a := Two(y, t);
      ScaleRange(a * Pow(t - 1), Nat(y), (a + 1) * Pow(t - 1), Pow(i - t - 1), Pow(t - 1), a, a + 1);
    }
  }

  lemma ScaleQuotient(c: nat, q: nat, u: nat, v: nat)
    requires c > 0 && q * v <= u < (q + 1) * v
    ensures q * (c * v) <= c * u < (q + 1) * (c * v)
  {
    MulMono(c, q * v, u);
    MulMono(c, u + 1, (q + 1) * v);
    Exchange(c, q, v);
    Exchange(c, q + 1, v);
  }

  /** The true digit passes the correction test, and what passes it is at most one too large. */
  lemma DigitBounds(p: seq<Limb>, y: seq<Limb>, i: nat, t: nat, q: nat, q': nat)
    requires t < i < |p| && t < |y| && y[t] != 0
    requires forall k :: i < k < |p| ==> p[k] == 0
    requires forall k :: t < k < |y| ==> y[k] == 0
    requires q < BASE && q * (Nat(y) * Pow(i - t - 1)) <= Nat(p) < (q + 1) * (Nat(y) * Pow(i - t - 1))
    ensures q * Two(y, t) <= Three(p, i)
    ensures q' * Two(y, t) <= Three(p, i) ==> q' <= q + 1
  {
    hide Nat, Pow, Three, Two;
    var c, w := LeadingLimbs(p, y, i, t);
    var u, v := Nat(p), Nat(y) * Pow(i - t - 1);
    ScaleQuotient(c, q, u, v);
    DigitPasses(c * u, c * v, Three(p, i), Two(y, t), w, q);
    if q' * Two(y, t) <= Three(p, i) {
      AtMostOneTooLarge(c * u, c * v, Three(p, i), Two(y, t), w, q, q');
    }
  }

  lemma EstimateCoversDigit(p: seq<Limb>, y: seq<Limb>, i: nat, t: nat, q: nat)
    requires 1 <= i < |p| && t < |y| && y[t] != 0
    requires q < BASE && q * Two(y, t) <= Three(p, i)
    ensures q <= if p[i] >= y[t] then BASE - 1 else (p[i] * BASE + p[i - 1]) / y[t]
  {
    assert Three(p, i) / BASE == p[i] * BASE + p[i - 1];
    assert Two(y, t) / BASE == y[t];
    EstimateNotBelow(Three(p, i), Two(y, t), q);
  }

  lemma ShiftedMultiple(y: nat, q: nat, d: nat)
    ensures (y * q) * Pow2(BIL * d) == q * (y * Pow(d))
  {
    hide Pow, Pow2;
    PowIsPow2(d);
    assert (y * q) * Pow(d) == q * (y * Pow(d));
  }

  /** X -= q' * Y << d, adding Y << d back once when that went below zero. */
  method SubtractDigit(X: Mpi, Y: Mpi, T1: Mpi, q': Limb, d: nat, ghost q: nat) returns (r: Limb)
    requires X != Y && X != T1 && Y != T1 && X.Valid() && Y.s == 1 && |X.p| >= 1 && |Y.p| >= 1
    requires q * (Nat(Y.p) * Pow(d)) <= X.Val() < (q + 1) * (Nat(Y.p) * Pow(d))
    requires q <= q' <= q + 1
    modifies X, T1
    ensures X.Valid() && |X.p| >= |old(X.p)| && |T1.p| >= |old(T1.p)|
    ensures r == q && X.Val() == old(X.Val()) - q * (Nat(Y.p) * Pow(d))
  {
    hide Nat, Pow, Pow2, BitLen, Inc, Dec;
    ghost var y, u := Nat(Y.p), Nat(Y.p) * Pow(d);
    OneMore(q, u);
    MulInt(T1, Y, q');
    ShiftL(T1, BIL * d);
    ShiftedMultiple(y, q', d);
    SubMpi(X, X, T1);
    r := q';
    var c := CmpInt(X, 0);
    if c < 0 {
      AddBack(X, Y, T1, d);
      IncDec(r);
      r := Dec(r);
    }
  }

  method AddBack(X: Mpi, Y: Mpi, T1: Mpi, d: nat)
    requires X != Y && X != T1 && Y != T1 && X.Valid() && Y.s == 1 && |X.p| >= 1 && |Y.p| >= 1
    modifies X, T1
    ensures X.Valid() && |X.p| >= |old(X.p)| && |T1.p| >= |old(T1.p)|
    ensures X.Val() == old(X.Val()) + Nat(Y.p) * Pow(d)
  {
    hide Nat, Pow, Pow2, BitLen, Len;
    T1.Copy(Y);
    ShiftL(T1, BIL * d);
    ShiftedMultiple(Nat(Y.p), 1, d);
    AddMpi(X, X, T1);
  }

  lemma HighLimbsZero(p: seq<Limb>, y: seq<Limb>, i: nat, t: nat)
    requires t < i < |p| && t < |y| && forall k :: t < k < |y| ==> y[k] == 0
    requires Nat(p) < Nat(y) * Pow(i - t)
    ensures forall k :: i < k < |p| ==> p[k] == 0
  {
    hide Nat, Pow;
    NatHigh(y, t + 1);
    MulMono(Pow(i - t), Nat(y), Pow(t + 1));
    PowAdd(t + 1, i - t);
    NatHigh(p, i + 1);
  }

  /** x is below b*u: it contains u fewer than b times. */
  lemma TrueDigit(x: nat, u: nat, b: nat)
    requires u > 0 && x < b * u
    ensures var q := x / u; q * u <= x < (q + 1) * u && 0 <= q < b
  {
    DivLess(x, u, b);
    OneMore(x / u, u);
  }

  ghost predicate DivInvariant(X: Mpi, Y: Mpi, Z: Mpi, i: nat, t: nat, x0: nat)
    reads X, Y, Z
    requires t <= i
  {
    X.Valid() && Y.s == 1 && |X.p| > i && t < |Y.p| && i - t < |Z.p|
    && Y.p[t] != 0 && (forall k :: t < k < |Y.p| ==> Y.p[k] == 0)
    && (forall k :: 0 <= k < i - t ==> Z.p[k] == 0)
    && 0 <= X.Val() < Nat(Y.p) * Pow(i - t)
    && Nat(Z.p) * Nat(Y.p) + X.Val() == x0
  }

  lemma StoreDigit(z: seq<Limb>, d: nat, q: Limb, y: nat, x: int, x0: int)
    requires d < |z| && z[d] == 0 && Nat(z) * y + x == x0
    ensures Nat(z[d := q]) * y + (x - q * (y * Pow(d))) == x0
  {
    hide Nat, Pow;
    NatUpdate(z, d, q);
    var n, P := Nat(z), Pow(d);
    assert (n + P * q) * y == n * y + q * (y * P);
  }

  /** Estimate and correct: the result passes the three-by-two test and is not below the true digit q. */
  method GuessDigit(X: Mpi, Y: Mpi, T1: Mpi, T2: Mpi, i: nat, t: nat, ghost q: nat) returns (e: Limb)
    requires X != T1 && X != T2 && Y != T1 && Y != T2 && T1 != T2 && |T1.p| >= 2 && |T2.p| >= 3
    requires 1 <= i < |X.p| && t < |Y.p| && Y.p[t] != 0 && q < BASE
    requires q * Two(Y.p, t) <= Three(X.p, i)
    modifies T1, T2
    ensures |T1.p| >= 2 && |T2.p| >= 3
    ensures q <= e && e * Two(Y.p, t) <= Three(X.p, i)
  {
    EstimateCoversDigit(X.p, Y.p, i, t, q);
    e := EstimateDigit(X.p[i], X.p[i - 1], Y.p[t]);
    e := CorrectDigit(e, q, Y.p[t], if t < 1 then 0 else Y.p[t - 1], X.p[i], X.p[i - 1], if i < 2 then 0 else X.p[i - 2], T1, T2);
  }

  /** The true digit of this step. */
  lemma StepDigit(p: seq<Limb>, y: seq<Limb>, i: nat, t: nat) returns (q: nat)
    requires t < i < |p| && t < |y| && y[t] != 0
    requires forall k :: t < k < |y| ==> y[k] == 0
    requires Nat(p) < Nat(y) * Pow(i - t)
    ensures forall k :: i < k < |p| ==> p[k] == 0
    ensures q < BASE && q * (Nat(y) * Pow(i - t - 1)) <= Nat(p) < (q + 1) * (Nat(y) * Pow(i - t - 1))
    ensures q * Two(y, t) <= Three(p, i)
  {
    hide Nat, Pow, Two, Three;
    var u := Nat(y) * Pow(i - t - 1);
    PowNext(i - t - 1);
    assert Nat(y) * (BASE * Pow(i - t - 1)) == BASE * u;
    TrueDigit(Nat(p), u, BASE);
    q := Nat(p) / u;
    HighLimbsZero(p, y, i, t);
    DigitBounds(p, y, i, t, q, q);
  }

  method DivStep(X: Mpi, Y: Mpi, Z: Mpi, T1: Mpi, T2: Mpi, i: nat, t: nat, ghost x0: nat)
    requires X != Y && X != Z && X != T1 && X != T2 && Y != Z && Y != T1 && Y != T2 && Z != T1 && Z != T2 && T1 != T2
    requires t < i && DivInvariant(X, Y, Z, i, t, x0) && |T1.p| >= 2 && |T2.p| >= 3
    modifies X, Z, T1, T2
    ensures DivInvariant(X, Y, Z, i - 1, t, x0) && |T1.p| >= 2 && |T2.p| >= 3
    ensures Z.s == old(Z.s) && |Z.p| == |old(Z.p)|
  {
    hide Nat, Pow, Three, Two;
    ghost var x := X.Val();
    ghost var q := StepDigit(X.p, Y.p, i, t);
    var e := GuessDigit(X, Y, T1, T2, i, t, q);
    DigitBounds(X.p, Y.p, i, t, q, e);
    e := SubtractDigit(X, Y, T1, e, i - t - 1, q);
    OneMore(q, Nat(Y.p) * Pow(i - t - 1));
    StoreDigit(Z.p, i - t - 1, e, Nat(Y.p), x, x0);
    Z.p := Z.p[i - t - 1 := e];
  }

  // ---------- the whole division ----------

  lemma Unscale(a: nat, b: nat, c: nat, z: nat, x: nat)
    requires b > 0 && c > 0 && z * (b * c) + x == a * c && x < b * c
    ensures z == a / b && x == a % b * c
  {
    var q, r, m := a / b, a % b, b * c;
    Dist3(q, b, r, c);
    ScaledRange(0, r, b, c);
    assert a * c == q * m + r * c;
    DivUnique(a * c, m, q, r * c);
    DivUnique(a * c, m, z, x);
  }

  /** The top limbs bound both numbers before the first digit. */
  lemma FirstDigitScale(x: nat, y: nat)
    requires x >= y > 0
    ensures Len(x) >= Len(y) >= 1
    ensures 0 < Pow(Len(x) - 1) <= y * Pow(Len(x) - Len(y))
    ensures x < BASE * Pow(Len(x) - 1)
  {
    hide Pow, Len;
    LenBounds(x);
    LenBounds(y);
    LenZero(x);
    LenZero(y);
    if Len(x) < Len(y) { LenMono(x, y); }
    PowAdd(Len(y) - 1, Len(x) - Len(y));
    MulMono(Pow(Len(x) - Len(y)), Pow(Len(y) - 1), y);
    PowNext(Len(x) - 1);
  }

  lemma TopLimb(p: seq<Limb>)
    requires |p| == Len(Nat(p)) >= 1
    ensures p[|p| - 1] != 0
  {
    hide Nat, Pow, Len;
    LenBounds(Nat(p));
    LenZero(Nat(p));
    if p[|p| - 1] == 0 { NatHigh(p, |p| - 1); }
  }

  lemma SingleDigit(z: seq<Limb>, d: nat)
    requires d < |z| && forall k :: 0 <= k < |z| && k != d ==> z[k] == 0
    ensures Nat(z) == z[d] * Pow(d)
  {
    hide Nat, Pow;
    var w := z[d := 0];
    NatZero(w);
    NatUpdate(w, d, z[d]);
    assert w[d := z[d]] == z;
  }

  /** Shift the divisor up, take the leading digit, shift it back. */
  method LeadingDigit(X: Mpi, Y: Mpi, Z: Mpi, n: nat, t: nat)
    requires X != Y && X != Z && Y != Z && X.s == 1 && Y.s == 1
    requires n + 1 == |X.p| == Len(Nat(X.p)) && t + 1 == |Y.p| == Len(Nat(Y.p)) && Nat(X.p) >= Nat(Y.p) > 0 && t <= n
    requires n - t < |Z.p| && forall k :: 0 <= k < |Z.p| ==> Z.p[k] == 0
    modifies X, Y, Z
    ensures DivInvariant(X, Y, Z, n, t, old(Nat(X.p)))
    ensures Nat(Y.p) == old(Nat(Y.p)) && Z.s == old(Z.s) && |Z.p| == |old(Z.p)|
  {
    hide Nat, Pow, Pow2, Len, BitLen;
    var d := n - t;
    ghost var y, y0 := Nat(Y.p), Y.p;
    FirstDigitScale(Nat(X.p), y);
    TopLimb(Y.p);
    PowIsPow2(d);
    ShiftL(Y, BIL * d);
    FirstDigit(X, Y, Z, d, Pow(n));
    SingleDigit(Z.p, d);
    ShiftR(Y, BIL * d);
    Unshift(y, Pow(d));
    RestoredLimbs(Y.p, y0);
    assert (Z.p[d] * Pow(d)) * y == Z.p[d] * (y * Pow(d));
  }

  lemma Unshift(y: nat, c: nat)
    requires c > 0
    ensures y * c / c == y
  {
    DivUnique(y * c, c, y, 0);
  }

  /** A buffer holding the same number as a shorter one starts with its limbs and ends in zeros. */
  lemma RestoredLimbs(p: seq<Limb>, p0: seq<Limb>)
    requires Nat(p) == Nat(p0) && |p0| <= |p|
    ensures forall k :: 0 <= k < |p0| ==> p[k] == p0[k]
    ensures forall k :: |p0| <= k < |p| ==> p[k] == 0
  {
    hide Nat, Pow;
    NatBound(p0);
    NatHigh(p, |p0|);
    NatInjective(p[..|p0|], p0);
    assert forall k :: 0 <= k < |p0| ==> p[k] == p[..|p0|][k];
  }

  /** Magnitudes: Z = X / Y and X = (X mod Y) * 2^k on return. */
  method LongDivision(X: Mpi, Y: Mpi, Z: Mpi, T1: Mpi, T2: Mpi) returns (k: nat)
    requires X != Y && X != Z && X != T1 && X != T2 && Y != Z && Y != T1 && Y != T2 && Z != T1 && Z != T2 && T1 != T2
    requires X.s == 1 && Y.s == 1 && |T1.p| >= 2 && |T2.p| >= 3
    requires |X.p| == Len(Nat(X.p)) && |Y.p| == Len(Nat(Y.p)) && Nat(X.p) >= Nat(Y.p) > 0
    requires |Z.p| >= |X.p| + 2 && forall k :: 0 <= k < |Z.p| ==> Z.p[k] == 0
    modifies X, Y, Z, T1, T2
    ensures Nat(Z.p) == old(Nat(X.p)) / old(Nat(Y.p)) && Z.s == old(Z.s) && |Z.p| == |old(Z.p)|
    ensures X.Valid() && Nat(X.p) == old(Nat(X.p)) % old(Nat(Y.p)) * Pow2(k) && |X.p| >= 1
  {
    hide Nat, Pow, Pow2, Len, BitLen;
    ghost var a, b := Nat(X.p), Nat(Y.p);
    k := Normalize(X, Y);
    ScaledRange(b, a, a + 1, Pow2(k));
    ScaledRange(0, b, b + 1, Pow2(k));
    FirstDigitScale(Nat(X.p), Nat(Y.p));
    var n, t := |X.p| - 1, |Y.p| - 1;
    ghost var x0 := Nat(X.p);
    LeadingDigit(X, Y, Z, n, t);
    var i := n;
    while i > t
      invariant t <= i <= n && |T1.p| >= 2 && |T2.p| >= 3
      invariant DivInvariant(X, Y, Z, i, t, x0) && Nat(Y.p) == b * Pow2(k)
      invariant Z.s == old(Z.s) && |Z.p| == |old(Z.p)|
    {
      DivStep(X, Y, Z, T1, T2, i, t, x0);
      i := i - 1;
    }
    PowNext(0);
    Unscale(a, b, Pow2(k), Nat(Z.p), Nat(X.p));
  }

  /** A = Q*B + R by truncated division; refused exactly for B = 0. What Q over an operand makes of the signs is stated too. */
  method DivMpi(Q: Mpi?, R: Mpi?, A: Mpi, B: Mpi) returns (r: Ret)
    requires A.Valid() && B.Valid()
    modifies Q, R
    ensures r == if old(B.Val()) == 0 then Fail(DivisionByZero) else Ok
    ensures r.Ok? && Q != null && Q != R ==>
      Q.Valid() && |Q.p| >= 1 && Q.Val() == AliasedQuot(old(A.Val()), old(B.Val()), Q == A, Q == B)
    ensures r.Ok? && R != null ==> R.Valid() && R.Val() == AliasedRem(old(A.Val()), old(B.Val()), Q == A, Q == B)
    ensures r.Ok? && R != null && Q != A && old(A.s) == 1 ==> R.s == 1
    ensures r.Ok? && R != null && Q == null && |old(A.p)| > 0 ==> |R.p| == Max(|old(R.p)|, Max(1, Len(Nat(R.p))))
  {
    hide Nat, Pow, Pow2, Len;
    ghost var a, b := A.Val(), B.Val();
    var c := CmpInt(B, 0);
    if c == 0 { return Fail(DivisionByZero); }
    c := CmpAbs(A, B);
    if c < 0 {
      SmallDivision(a, b);
      EnoughLimbs(A.p, Nat(A.p));
      if Q != null { Q.Lset(0); }
      if R != null {
        NatEmpty(A.p);
        R.Copy(A);
      }
      return Ok;
    }
    DivLarge(Q, R, A, B);
    return Ok;
  }

  lemma SmallDivision(a: int, b: int)
    requires AbsInt(a) < AbsInt(b)
    ensures forall qa, qb :: AliasedQuot(a, b, qa, qb) == 0
    ensures forall qa, qb :: AliasedRem(a, b, qa, qb) == if qa then 0 else a
  {
    ModSmall(AbsInt(a), AbsInt(b));
  }

  /** The division of the magnitudes on copies; X holds the remainder still scaled by 2^k. */
  method DivMagnitudes(A: Mpi, B: Mpi) returns (X: Mpi, Z: Mpi, k: nat)
    requires Nat(A.p) >= Nat(B.p) > 0
    ensures fresh(X) && fresh(Z) && X != Z && X.Valid() && Z.s == 1 && |X.p| >= 1 && |Z.p| >= 1
    ensures Nat(Z.p) == Nat(A.p) / Nat(B.p) && Nat(X.p) == Nat(A.p) % Nat(B.p) * Pow2(k)
  {
    hide Nat, Pow, Pow2, Len;
    NatEmpty(A.p);
    NatEmpty(B.p);
    LenZero(Nat(A.p));
    LenZero(Nat(B.p));
    EnoughLimbs(A.p, Nat(A.p));
    X := new Mpi();
    X.Copy(A);
    var Y := new Mpi();
    Y.Copy(B);
    X.s, Y.s := 1, 1;
    Z := new Mpi();
    Z.Grow(|A.p| + 2);
    Z.Lset(0);
    var T1 := new Mpi();
    T1.Grow(2);
    var T2 := new Mpi();
    T2.Grow(3);
    k := LongDivision(X, Y, Z, T1, T2);
  }

  /** mpi_shift_r( &X, k ); X.s = A->s; mpi_copy( R, &X ); */
  method StoreRemainder(R: Mpi, X: Mpi, k: nat, s: int, ghost r: nat)
    requires R != X && X.Valid() && |X.p| >= 1 && (s == 1 || s == -1) && Nat(X.p) == r * Pow2(k)
    modifies R, X
    ensures R.Valid() && R.Val() == (if s < 0 then 0 - r else r) && Nat(R.p) == r && (s == 1 ==> R.s == 1)
    ensures |R.p| == Max(|old(R.p)|, Max(1, Len(r)))
  {
    hide Nat, Pow2, Len;
    ShiftR(X, k);
    Unshift(r, Pow2(k));
    X.s := s;
    R.Copy(X);
    var c := CmpInt(R, 0);
    if c == 0 { R.s := 1; }
  }

  method DivLarge(Q: Mpi?, R: Mpi?, A: Mpi, B: Mpi)
    requires A.Valid() && B.Valid() && Nat(A.p) >= Nat(B.p) > 0
    modifies Q, R
    ensures Q != null && Q != R ==>
      Q.Valid() && |Q.p| >= 1 && Q.Val() == AliasedQuot(old(A.Val()), old(B.Val()), Q == A, Q == B)
    ensures R != null ==> R.Valid() && R.Val() == AliasedRem(old(A.Val()), old(B.Val()), Q == A, Q == B)
    ensures R != null && Q != A && old(A.s) == 1 ==> R.s == 1
    ensures R != null && Q == null ==> |R.p| == Max(|old(R.p)|, Max(1, Len(Nat(R.p))))
  {
    hide Nat, Pow2, Len;
    ghost var a, b := Nat(A.p), Nat(B.p);
    var X, Z, k := DivMagnitudes(A, B);
    DivBounds(a, b);
    if Q != null {
      Q.Copy(Z);
      Q.s := A.s * B.s;
    }
    if R != null {
      StoreRemainder(R, X, k, A.s, a % b);
    }
  }
}
