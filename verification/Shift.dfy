/** Left and right shifts of mpi values in place (bignum.c: mpi_shift_l, mpi_shift_r). */
module Shift {
  import opened Arith
  import opened Limbs
  import opened Bignum
  import opened Bits

  // ---------- left ----------

  lemma BaseSplits(t: nat)
    requires t <= BIL
    ensures Pow2(t) * Pow2(BIL - t) == BASE
  {
    Pow2Values();
    Pow2Add(t, BIL - t);
  }

  /** One limb of the left bit shift: nothing is lost, and the or is an addition. */
  lemma ShlLimb(x: Limb, r0: nat, t: nat)
    requires 0 < t < BIL && r0 < Pow2(t)
    ensures BitOr(Shl(x, t), r0) == Shl(x, t) + r0 < BASE
    ensures x * Pow2(t) == Shl(x, t) + BASE * Shr(x, BIL - t) && Shr(x, BIL - t) < Pow2(t)
  {
    hide Pow2, BitOr;
    var a, b := Pow2(t), Pow2(BIL - t);
    BaseSplits(t);
    DivLess(x, b, a);
    ShlParts(x, a, b, x / b, x % b);
    BitOrDisjoint(Shl(x, t), r0, t);
  }

  lemma ShlParts(x: nat, a: nat, b: nat, h: nat, l: nat)
    requires 0 < a && a * b == BASE && x == b * h + l && l < b
    ensures x * a == l * a + BASE * h && x * a % BASE == l * a
    ensures l * a % a == 0 && l * a + a <= BASE
  {
    assert (b * h) * a == (a * b) * h;
    MulMono(a, l + 1, b);
    DivUnique(x * a, BASE, h, l * a);
    DivUnique(l * a, a, l, 0);
  }

  lemma ShlStep(P: nat, a: nat, u: nat, v: nat, x: nat, r0: nat, y: nat, r1: nat)
    requires v + P * r0 == a * u && x * a + r0 == y + BASE * r1
    ensures v + P * y + (BASE * P) * r1 == a * (u + P * x)
  {
    calc {
      P * y + (BASE * P) * r1;
      P * (y + BASE * r1);
      P * (x * a + r0);
      P * (x * a) + P * r0;
    }
    assert a * (u + P * x) == a * u + a * (P * x);
    assert a * (P * x) == P * (x * a);
  }

  method MoveUp(X: Mpi, v0: nat)
    requires v0 <= |X.p|
    modifies X
    ensures X.s == old(X.s) && X.p == Zeros(v0) + old(X.p)[..|old(X.p)| - v0]
  {
    ghost var p0 := X.p;
    var i := |X.p|;
    while i > v0
      invariant v0 <= i <= |p0| == |X.p| && X.s == old(X.s)
      invariant forall k :: 0 <= k < i ==> X.p[k] == p0[k]
      invariant forall k :: i <= k < |p0| ==> X.p[k] == p0[k - v0]
    {
      X.p := X.p[i - 1 := X.p[i - v0 - 1]];
      i := i - 1;
    }
    assert X.p[v0..] == p0[..|p0| - v0];
    ClearLow(X, v0);
  }

  method ClearLow(X: Mpi, v0: nat)
    requires v0 <= |X.p|
    modifies X
    ensures X.s == old(X.s) && X.p == Zeros(v0) + old(X.p)[v0..]
  {
    ghost var p0 := X.p;
    var i := v0;
    while i > 0
      invariant 0 <= i <= v0 && |X.p| == |p0| && X.s == old(X.s)
      invariant forall k :: i <= k < v0 ==> X.p[k] == 0
      invariant X.p[v0..] == p0[v0..]
    {
      X.p := X.p[i - 1 := 0];
      i := i - 1;
    }
    assert X.p[..v0] == Zeros(v0);
  }

  /** Limbs below i are shifted, limbs from i up are still the original ones. */
  ghost predicate ShlInvariant(p: seq<Limb>, p0: seq<Limb>, i: nat, t: nat, r0: nat) {
    i <= |p| == |p0| && p[i..] == p0[i..] && r0 < Pow2(t)
    && Nat(p[..i]) + Pow(i) * r0 == Pow2(t) * Nat(p0[..i])
  }

  lemma ShlNext(p: seq<Limb>, p0: seq<Limb>, i: nat, t: nat, r0: nat, y: Limb)
    requires 0 < t < BIL && i < |p| && ShlInvariant(p, p0, i, t, r0)
    requires y == BitOr(Shl(p[i], t), r0)
    ensures ShlInvariant(p[i := y], p0, i + 1, t, Shr(p[i], BIL - t))
  {
    hide Nat, Pow, Pow2, BitOr, Shl, Shr;
    var x, q := p0[i], p[i := y];
    assert p[i] == p[i..][0] == x;
    ShlLimb(x, r0, t);
    assert q[..i] == p[..i] && q[i + 1..] == p[i..][1..] == p0[i + 1..];
    NatSnoc(q, i);
    NatSnoc(p0, i);
    assert Pow(i + 1) == BASE * Pow(i) by { PowNext(i); }
    ShlStep(Pow(i), Pow2(t), Nat(p0[..i]), Nat(p[..i]), x, r0, y, Shr(x, BIL - t));
  }

  method ShiftBitsUp(X: Mpi, v0: nat, t1: nat)
    requires 0 < t1 < BIL && v0 <= |X.p|
    requires forall k :: 0 <= k < v0 ==> X.p[k] == 0
    requires Pow2(t1) * Nat(X.p) < Pow(|X.p|)
    modifies X
    ensures X.s == old(X.s) && |X.p| == |old(X.p)|
    ensures Nat(X.p) == Pow2(t1) * old(Nat(X.p))
  {
    hide Nat, Pow, Pow2, BitOr, Shl, Shr;
    ghost var p0 := X.p;
    var r0: nat, i := 0, v0;
    NatZero(X.p[..v0]);
    while i < |X.p|
      invariant v0 <= i <= |X.p| && X.s == old(X.s)
      invariant ShlInvariant(X.p, p0, i, t1, r0)
    {
      ghost var p1 := X.p;
      ShlLimb(X.p[i], r0, t1);
      var r1 := Shr(X.p[i], BIL - t1);
      X.p := X.p[i := Shl(X.p[i], t1)];
      X.p := X.p[i := BitOr(X.p[i], r0)];
      assert X.p == p1[i := X.p[i]];
      ShlNext(p1, p0, i, t1, r0, X.p[i]);
      r0, i := r1, i + 1;
    }
    assert X.p[..i] == X.p && p0[..i] == p0;
    NoOverflow(Nat(X.p), Pow(i), r0);
  }

  lemma NoOverflow(v: nat, P: nat, r: nat)
    requires v + P * r < P
    ensures r == 0
  {
    if r > 0 { MulMono(P, 1, r); }
  }

  /** The grown buffer has room for the shifted value. */
  lemma RoomForShift(v: nat, count: nat, n: nat)
    requires BitLen(v) + count <= BIL * n
    ensures v * Pow2(count) < Pow(n)
    ensures count / BIL <= n && v < Pow(n - count / BIL)
  {
    hide Pow2, Pow, BitLen;
    var v0 := count / BIL;
    BitLenBounds(v);
    Pow2Add(BitLen(v), count);
    ScaledRange(0, v, Pow2(BitLen(v)), Pow2(count));
    Pow2Mono(BitLen(v) + count, BIL * n);
    PowIsPow2(n);
    Pow2Mono(BitLen(v), BIL * (n - v0));
    PowIsPow2(n - v0);
  }

  function Max(a: nat, b: nat): (r: nat) {
    if a < b then b else a
  }

  function BitsToLimbs(i: nat): (r: nat) {
    (i + BIL - 1) / BIL
  }

  lemma SplitCount(count: nat)
    ensures Pow2(count) == Pow2(count % BIL) * Pow(count / BIL)
  {
    hide Pow2, Pow;
    PowIsPow2(count / BIL);
    Pow2Add(count % BIL, BIL * (count / BIL));
  }

  method ShiftL(X: Mpi, count: nat)
    requires |X.p| >= 1
    modifies X
    ensures X.s == old(X.s)
    ensures Nat(X.p) == old(Nat(X.p)) * Pow2(count)
    ensures |X.p| == Max(|old(X.p)|, BitsToLimbs(BitLen(old(Nat(X.p))) + count))
  {
    hide Nat, Pow, Pow2, BitLen;
    var v0, t1 := count / BIL, count % BIL;
    var i := Msb(X);
    i := i + count;
    if |X.p| * BIL < i { X.Grow(BitsToLimbs(i)); }
    ghost var v, n := Nat(X.p), |X.p|;
    RoomForShift(v, count, n);
    SplitCount(count);
    NatHigh(X.p, n - v0);
    if v0 > 0 { MoveUp(X, v0); } else { PowNext(0); assert X.p == Zeros(0) + X.p[..n]; }
    assert X.p[..v0] == Zeros(v0);
    UpValue(v, v0, t1, count);
    assert X.p == Zeros(v0) + X.p[v0..];
    NatShift(X.p[v0..], v0);
    if t1 > 0 { ShiftBitsUp(X, v0, t1); } else { Pow2Zero(); }
  }

  lemma UpValue(v: nat, v0: nat, t1: nat, count: nat)
    requires v0 == count / BIL && t1 == count % BIL
    ensures v * Pow2(count) == Pow2(t1) * (Pow(v0) * v)
  {
    hide Pow2, Pow;
    SplitCount(count);
    assert v * (Pow2(t1) * Pow(v0)) == Pow2(t1) * (Pow(v0) * v);
  }

  // ---------- right ----------

  /** One limb of the right bit shift. */
  lemma ShrLimb(x: Limb, r0: nat, v: nat, rem: nat)
    requires 0 < v < BIL && rem < Pow2(v) && r0 == rem * Pow2(BIL - v)
    ensures BitOr(Shr(x, v), r0) == Shr(x, v) + r0 < BASE
    ensures Shl(x, BIL - v) == x % Pow2(v) * Pow2(BIL - v)
  {
    hide Pow2, BitOr;
    var a, b := Pow2(v), Pow2(BIL - v);
    BaseSplits(v);
    DivLess(x, a, b);
    ShlParts(x, b, a, x / a, x % a);
    ShlParts(rem, b, a, 0, rem);
    BitOrDisjoint(r0, Shr(x, v), BIL - v);
  }

  lemma ShrStep(a: nat, b: nat, S: nat, x: nat)
    requires 0 < a && a * b == BASE
    ensures (x + BASE * S) / a == x / a + S % a * b + BASE * (S / a)
    ensures (x + BASE * S) % a == x % a
  {
    var q, r, h, l := S / a, S % a, x / a, x % a;
    calc {
      BASE * S;
      (a * b) * S;
      { assert (a * b) * S == a * (b * S); }
      a * (b * S);
      { assert b * (a * q + r) == b * (a * q) + b * r; }
      a * (b * (a * q) + b * r);
      { assert b * (a * q) == (a * b) * q; }
      a * (BASE * q + r * b);
    }
    MulAdd(a, h, BASE * q + r * b);
    DivUnique(x + BASE * S, a, h + (BASE * q + r * b), l);
  }

  method MoveDown(X: Mpi, v0: nat)
    requires v0 <= |X.p|
    modifies X
    ensures X.s == old(X.s) && X.p == old(X.p)[v0..] + Zeros(v0)
  {
    ghost var p0 := X.p;
    var i := 0;
    while i < |X.p| - v0
      invariant 0 <= i <= |p0| - v0 && |X.p| == |p0| && X.s == old(X.s)
      invariant forall k :: 0 <= k < i ==> X.p[k] == p0[k + v0]
      invariant forall k :: i <= k < |p0| ==> X.p[k] == p0[k]
    {
      X.p := X.p[i := X.p[i + v0]];
      i := i + 1;
    }
    while i < |X.p|
      invariant |p0| - v0 <= i <= |p0| == |X.p| && X.s == old(X.s)
      invariant forall k :: 0 <= k < |p0| - v0 ==> X.p[k] == p0[k + v0]
      invariant forall k :: |p0| - v0 <= k < i ==> X.p[k] == 0
    {
      X.p := X.p[i := 0];
      i := i + 1;
    }
  }

  lemma ZeroDivides(a: nat)
    requires 0 < a
    ensures 0 / a == 0 && 0 % a == 0
  {
    ModSmall(0, a);
  }

  /** Limbs from i up are shifted, limbs below i are still the original ones. */
  ghost predicate ShrInvariant(p: seq<Limb>, p0: seq<Limb>, i: nat, v: nat, r0: nat)
    requires v <= BIL
  {
    i <= |p| == |p0| && p[..i] == p0[..i]
    && Nat(p[i..]) == Nat(p0[i..]) / Pow2(v) && r0 == Nat(p0[i..]) % Pow2(v) * Pow2(BIL - v)
  }

  lemma ShrNext(p: seq<Limb>, p0: seq<Limb>, i: nat, v: nat, r0: nat, y: Limb)
    requires 0 < v < BIL && 0 < i <= |p| && ShrInvariant(p, p0, i, v, r0)
    requires y == BitOr(Shr(p[i - 1], v), r0)
    ensures ShrInvariant(p[i - 1 := y], p0, i - 1, v, Shl(p[i - 1], BIL - v))
  {
    hide Nat, Pow, Pow2, BitOr, Shl;
    var x, q := p0[i - 1], p[i - 1 := y];
    assert p[i - 1] == p[..i][i - 1] == x;
    ShrLimb(x, r0, v, Nat(p0[i..]) % Pow2(v));
    assert q[..i - 1] == p[..i][..i - 1] == p0[..i - 1] && q[i..] == p[i..];
    NatCons(q, i - 1);
    NatCons(p0, i - 1);
    BaseSplits(v);
    ShrStep(Pow2(v), Pow2(BIL - v), Nat(p0[i..]), x);
  }

  method ShiftBitsDown(X: Mpi, v1: nat)
    requires 0 < v1 < BIL
    modifies X
    ensures X.s == old(X.s) && |X.p| == |old(X.p)|
    ensures Nat(X.p) == old(Nat(X.p)) / Pow2(v1)
  {
    hide Nat, Pow, Pow2, BitOr, Shl, Shr;
    ghost var p0 := X.p;
    var r0: nat, i := 0, |X.p|;
    ZeroDivides(Pow2(v1));
    NatZero(p0[i..]);
    while i > 0
      invariant 0 <= i <= |X.p| && X.s == old(X.s)
      invariant ShrInvariant(X.p, p0, i, v1, r0)
    {
      ghost var p1 := X.p;
      ShrLimb(X.p[i - 1], r0, v1, Nat(p0[i..]) % Pow2(v1));
      var r1 := Shl(X.p[i - 1], BIL - v1);
      X.p := X.p[i - 1 := Shr(X.p[i - 1], v1)];
      X.p := X.p[i - 1 := BitOr(X.p[i - 1], r0)];
      assert X.p == p1[i - 1 := X.p[i - 1]];
      ShrNext(p1, p0, i, v1, r0, X.p[i - 1]);
      r0, i := r1, i - 1;
    }
    assert X.p[0..] == X.p && p0[0..] == p0;
  }

  /** Shifting everything out. */
  lemma ShiftedAway(p: seq<Limb>, count: nat)
    requires BIL * |p| <= count
    ensures Nat(p) / Pow2(count) == 0
  {
    hide Nat, Pow, Pow2;
    NatBound(p);
    PowIsPow2(|p|);
    Pow2Mono(BIL * |p|, count);
    ModSmall(Nat(p), Pow2(count));
  }

  method ShiftR(X: Mpi, count: nat)
    modifies X
    ensures X.s == old(X.s) || (X.s == 1 && Nat(X.p) == 0)
    ensures Nat(X.p) == old(Nat(X.p)) / Pow2(count)
    ensures |X.p| >= |old(X.p)| && (|old(X.p)| > 0 ==> |X.p| == |old(X.p)|)
  {
    hide Nat, Pow, Pow2;
    var v0, v1 := count / BIL, count % BIL;
    ghost var p0 := X.p;
    if v0 > |X.p| || (v0 == |X.p| && v1 > 0) {
      ShiftedAway(p0, count);
      X.Lset(0);
      return;
    }
    SplitCount(count);
    NatDivMod(p0, v0);
    if v0 > 0 { MoveDown(X, v0); } else { assert X.p == X.p[0..] + Zeros(0); }
    NatPad(p0[v0..], v0);
    DivDiv(Nat(p0), Pow(v0), Pow2(v1));
    assert Pow(v0) * Pow2(v1) == Pow2(count);
    if v1 > 0 { ShiftBitsDown(X, v1); } else { Pow2Zero(); }
  }
}
