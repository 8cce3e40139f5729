/** Bit positions, comparison and shifts of mpi values (bignum.c: mpi_lsb, mpi_msb, mpi_shift_l, mpi_shift_r, mpi_cmp_*). */
module Bits {
  import opened Arith
  import opened Limbs
  import opened Bignum

  // ---------- bit length and trailing zeros ----------

  /** The number of bits of v. */
  function BitLen(v: nat): (n: nat) {
    if v == 0 then 0 else 1 + BitLen(v / 2)
  }

  lemma {:induction false} BitLenUnique(v: nat, n: nat)
    requires v < Pow2(n) && (n > 0 ==> Pow2(n - 1) <= v)
    ensures BitLen(v) == n
    decreases n
  {
    if n > 1 { BitLenUnique(v / 2, n - 1); }
  }

  lemma {:induction false} BitLenBounds(v: nat)
    ensures v < Pow2(BitLen(v)) && (v > 0 ==> Pow2(BitLen(v) - 1) <= v)
  {
    if v > 0 { BitLenBounds(v / 2); }
  }

  lemma BitLenShift(v: nat, k: nat)
    requires v > 0
    ensures BitLen(v * Pow2(k)) == BitLen(v) + k
  {
    hide Pow2, BitLen;
    var n := BitLen(v);
    BitLenBounds(v);
    BitLenPositive(v);
    Pow2Add(n, k);
    Pow2Add(n - 1, k);
    ScaledRange(Pow2(n - 1), v, Pow2(n), Pow2(k));
    BitLenUnique(v * Pow2(k), n + k);
  }

  lemma BitLenPositive(v: nat)
    ensures BitLen(v) > 0 <==> v > 0
  {
  }

  /** v >> k. */
  function Down(v: nat, k: nat): (r: nat)
    ensures r <= v
  {
    DivBounds(v, Pow2(k));
    v / Pow2(k)
  }

  /** v has exactly c trailing zero bits. */
  ghost predicate TrailingZeros(v: nat, c: nat) {
    v % Pow2(c) == 0 && v / Pow2(c) % 2 == 1
  }

  lemma TopBit(x: nat, j: nat)
    requires x < Pow2(j + 1)
    ensures x / Pow2(j) % 2 == 0 <==> x < Pow2(j)
  {
    DivLess(x, Pow2(j), 2);
    DivBounds(x, Pow2(j));
    if x < Pow2(j) { ModSmall(x, Pow2(j)); }
  }

  lemma TopLimbBits(p: seq<Limb>, i: nat, j: nat)
    requires i < |p| && forall k :: i < k < |p| ==> p[k] == 0
    requires p[i] < Pow2(j) && (j > 0 ==> Pow2(j - 1) <= p[i])
    requires j == 0 ==> i == 0
    ensures BitLen(Nat(p)) == i * BIL + j
  {
    hide Nat, Pow, Pow2, BitLen;
    NatHigh(p, i + 1);
    NatSnoc(p, i);
    NatBound(p[..i]);
    PowIsPow2(i);
    PowIsPow2(i + 1);
    Pow2Add(BIL * i, j);
    assert |p[..i]| == i;
    LeadingRange(Nat(p[..i]), Pow(i), p[i], Pow2(j));
    if j > 0 {
      Pow2Add(BIL * i, j - 1);
      MulMono(Pow(i), Pow2(j - 1), p[i]);
    }
    BitLenUnique(Nat(p), BIL * i + j);
  }

  lemma LeadingRange(l: nat, p: nat, x: nat, y: nat)
    requires l < p && x < y
    ensures l + p * x < p * y
  {
    MulMono(p, x + 1, y);
    MulAdd(p, x, 1);
  }

  method Msb(X: Mpi) returns (r: nat)
    requires |X.p| >= 1
    ensures r == BitLen(Nat(X.p))
  {
    var i: nat := |X.p| - 1;
    while i > 0 && X.p[i] == 0
      invariant i < |X.p|
      invariant forall k :: i < k < |X.p| ==> X.p[k] == 0
    {
      i := i - 1;
    }
    var j: nat := BIL;
    Pow2Values();
    while j > 0 && Shr(X.p[i], j - 1) % 2 == 0
      invariant j <= BIL && X.p[i] < Pow2(j)
    {
      TopBit(X.p[i], j - 1);
      j := j - 1;
    }
    if j > 0 { TopBit(X.p[i], j - 1); }
    TopLimbBits(X.p, i, j);
    r := i * BIL + j;
  }

  lemma NextZeroBit(v: nat, c: nat)
    requires v % Pow2(c) == 0 && v / Pow2(c) % 2 == 0
    ensures v % Pow2(c + 1) == 0
  {
    var q := v / Pow2(c);
    assert v == Pow2(c) * (2 * (q / 2));
    assert Pow2(c) * (2 * (q / 2)) == (2 * Pow2(c)) * (q / 2);
    DivUnique(v, Pow2(c + 1), q / 2, 0);
  }

  lemma AllBitsZero(p: seq<Limb>)
    requires Nat(p) % Pow2(BIL * |p|) == 0
    ensures Nat(p) == 0
  {
    NatBound(p);
    PowIsPow2(|p|);
    ModSmall(Nat(p), Pow2(BIL * |p|));
  }

  method Lsb(X: Mpi) returns (count: nat)
    ensures Nat(X.p) == 0 ==> count == 0
    ensures Nat(X.p) > 0 ==> TrailingZeros(Nat(X.p), count)
  {
    count := 0;
    var i := 0;
    while i < |X.p|
      invariant i <= |X.p| && count == BIL * i
      invariant Nat(X.p) % Pow2(count) == 0
    {
      var j := 0;
      while j < BIL
        invariant j <= BIL && count == BIL * i + j
        invariant Nat(X.p) % Pow2(count) == 0
      {
        BitOfLimb(X.p, i, j);
        if Shr(X.p[i], j) % 2 != 0 {
          ZeroHasNoBits(count);
          return;
        }
        NextZeroBit(Nat(X.p), count);
        j, count := j + 1, count + 1;
      }
      i := i + 1;
    }
    AllBitsZero(X.p);
    count := 0;
  }

  lemma ZeroHasNoBits(c: nat)
    ensures 0 / Pow2(c) == 0
  {
    ModSmall(0, Pow2(c));
  }

  // ---------- comparison ----------

  /** The higher limbs decide. */
  lemma HighDecides(s: seq<Limb>, t: seq<Limb>, i: nat)
    requires i <= |s| && i <= |t| && Nat(s[i..]) < Nat(t[i..])
    ensures Nat(s) < Nat(t)
  {
    hide Nat, Pow;
    NatSplit(s, i);
    NatSplit(t, i);
    NatBound(s[..i]);
    LeadingRange(Nat(s[..i]), Pow(i), Nat(s[i..]), Nat(t[i..]));
  }

  /** The downward scan that ends mpi_cmp_abs and mpi_cmp_mpi. */
  method CmpLimbs(s: seq<Limb>, t: seq<Limb>, n: nat) returns (r: int)
    requires n <= |s| && n <= |t| && Nat(s[n..]) == Nat(t[n..])
    ensures r == Sgn(Nat(s) - Nat(t))
  {
    var i := n;
    while i > 0
      invariant 0 <= i <= n && Nat(s[i..]) == Nat(t[i..])
    {
      NatCons(s, i - 1);
      NatCons(t, i - 1);
      if s[i - 1] > t[i - 1] { HighDecides(t, s, i - 1); return 1; }
      if s[i - 1] < t[i - 1] { HighDecides(s, t, i - 1); return -1; }
      i := i - 1;
    }
    assert s[0..] == s && t[0..] == t;
    return 0;
  }

  method CmpAbs(X: Mpi, Y: Mpi) returns (r: int)
    ensures r == Sgn(Nat(X.p) - Nat(Y.p))
  {
    hide Nat, Len;
    var i := HighLimb(X.p);
    var j := HighLimb(Y.p);
    LenZero(Nat(X.p));
    LenZero(Nat(Y.p));
    if i == 0 && j == 0 { return 0; }
    if i > j { LenMono(Nat(Y.p), Nat(X.p)); return 1; }
    if j > i { LenMono(Nat(X.p), Nat(Y.p)); return -1; }
    NatZero(X.p[i..]);
    NatZero(Y.p[i..]);
    r := CmpLimbs(X.p, Y.p, i);
  }

  method CmpMpi(X: Mpi, Y: Mpi) returns (r: int)
    requires X.Valid() && Y.Valid()
    ensures r == Sgn(X.Val() - Y.Val())
  {
    hide Nat, Len;
    var i := HighLimb(X.p);
    var j := HighLimb(Y.p);
    LenZero(Nat(X.p));
    LenZero(Nat(Y.p));
    if i == 0 && j == 0 { return 0; }
    if i > j { LenMono(Nat(Y.p), Nat(X.p)); return X.s; }
    if j > i { LenMono(Nat(X.p), Nat(Y.p)); return -Y.s; }
    if X.s > 0 && Y.s < 0 { return 1; }
    if Y.s > 0 && X.s < 0 { return -1; }
    NatZero(X.p[i..]);
    NatZero(Y.p[i..]);
    r := CmpLimbs(X.p, Y.p, i);
    if r > 0 { return X.s; }
    if r < 0 { return -X.s; }
    return 0;
  }

  method CmpInt(X: Mpi, z: Sint) returns (r: int)
    requires X.Valid()
    ensures r == Sgn(X.Val() - z)
  {
    NatOne(AbsInt(z));
    var Y := new Mpi.OnStack(if z < 0 then -1 else 1, AbsInt(z));
    r := CmpMpi(X, Y);
  }
}
