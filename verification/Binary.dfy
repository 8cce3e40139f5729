/** Big-endian import and export (bignum.c: mpi_size, mpi_read_binary, mpi_write_binary). */
module Binary {
  import opened Arith
  import opened Limbs
  import opened Bignum
  import opened Bits
  import opened Shift
  import opened AddSub
  import opened ExpMod

  /** The number written by bytes, most significant first. */
  function BytesNat(s: seq<Byte>): (v: nat) {
    if |s| == 0 then 0 else BytesNat(s[..|s| - 1]) * 256 + s[|s| - 1]
  }

  lemma {:induction false} BytesAppend(s: seq<Byte>, t: seq<Byte>)
    ensures BytesNat(s + t) == BytesNat(s) * Pow2(8 * |t|) + BytesNat(t)
  {
    Pow2Zero();
    if |t| == 0 {
      assert s + t == s;
    } else {
      var m := |t| - 1;
      LastByte(s, t);
      BytesAppend(s, t[..m]);
      hide BytesNat, Pow2;
      Pow2Add(8 * m, 8);
      assert Pow2(8) == 256 by { Pow2Values(); }
      Scaled256(BytesNat(s), Pow2(8 * m));
    }
  }

  lemma LastByte(s: seq<Byte>, t: seq<Byte>)
    requires |t| > 0
    ensures
      var m := |t| - 1;
      BytesNat(s + t) == BytesNat(s + t[..m]) * 256 + t[m] && BytesNat(t) == BytesNat(t[..m]) * 256 + t[m]
  {
    var m := |t| - 1;
    assert (s + t)[..|s + t| - 1] == s + t[..m] && (s + t)[|s + t| - 1] == t[m];
  }

  lemma Scaled256(v: nat, p: nat)
    ensures v * (p * 256) == (v * p) * 256
  {
  }

  lemma ByteNat(b: Byte)
    ensures BytesNat([b]) == b
  {
    assert [b][..0] == [];
  }

  lemma {:induction false} BytesBound(s: seq<Byte>)
    ensures BytesNat(s) < Pow2(8 * |s|)
  {
    if |s| > 0 {
      BytesBound(s[..|s| - 1]);
      Pow2Add(8 * (|s| - 1), 8);
      assert Pow2(8) == 256 by { Pow2Values(); }
    }
  }

  lemma BytesCons(s: seq<Byte>, i: nat)
    requires 0 < i <= |s|
    ensures BytesNat(s[i - 1..]) == s[i - 1] * Pow2(8 * (|s| - i)) + BytesNat(s[i..])
  {
    assert s[i - 1..] == [s[i - 1]] + s[i..];
    BytesAppend([s[i - 1]], s[i..]);
    ByteNat(s[i - 1]);
  }

  lemma {:induction false} BytesZeros(s: seq<Byte>)
    requires forall k :: 0 <= k < |s| ==> s[k] == 0
    ensures BytesNat(s) == 0
  {
    if |s| > 0 { BytesZeros(s[..|s| - 1]); }
  }

  /** Equal numbers in byte strings of the same length are the same strings. */
  lemma {:induction false} BytesInjective(s: seq<Byte>, t: seq<Byte>)
    requires |s| == |t| && BytesNat(s) == BytesNat(t)
    ensures s == t
  {
    if |s| > 0 {
      var m := |s| - 1;
      BytesInjective(s[..m], t[..m]);
      assert s == s[..m] + [s[m]] && t == t[..m] + [t[m]];
    }
  }

  /** The number of bytes of v. */
  function ByteLen(v: nat): (n: nat) {
    (BitLen(v) + 7) / 8
  }

  lemma ByteLenBounds(v: nat)
    ensures v < Pow2(8 * ByteLen(v)) && (v > 0 ==> ByteLen(v) > 0 && Pow2(8 * (ByteLen(v) - 1)) <= v)
  {
    BitLenBounds(v);
    BitLenPositive(v);
    Pow2Mono(BitLen(v), 8 * ByteLen(v));
    if v > 0 { Pow2Mono(8 * (ByteLen(v) - 1), BitLen(v) - 1); }
  }

  lemma ByteLenAtMost(v: nat, n: nat)
    requires v < Pow2(8 * n)
    ensures ByteLen(v) <= n
  {
    ByteLenBounds(v);
    if v > 0 && n < ByteLen(v) { Pow2Mono(8 * n, 8 * (ByteLen(v) - 1)); }
  }

  lemma ByteLenLeast(v: nat)
    ensures v < Pow2(8 * ByteLen(v)) && forall k: nat :: v < Pow2(8 * k) ==> ByteLen(v) <= k
  {
    ByteLenBounds(v);
    forall k: nat | v < Pow2(8 * k) ensures ByteLen(v) <= k { ByteLenAtMost(v, k); }
  }

  /** The least number of bytes that hold X. */
  method Size(X: Mpi) returns (n: nat)
    requires |X.p| >= 1
    ensures n == ByteLen(Nat(X.p))
    ensures Nat(X.p) < Pow2(8 * n) && forall k: nat :: Nat(X.p) < Pow2(8 * k) ==> n <= k
  {
    ByteLenLeast(Nat(X.p));
    hide Pow2, Nat;
    var m := Msb(X);
    n := (m + 7) / 8;
  }

  // ---------- import ----------

  /** The byte goes into bits of the limb that are still zero. */
  lemma PlaceByte(p: seq<Limb>, j: nat, b: Byte)
    requires j < CIL * |p| && Nat(p) < Pow2(8 * j)
    ensures
      var i, t := j / CIL, j % CIL * 8;
      BitOr(p[i], Shl(b, t)) == p[i] + Shl(b, t) < BASE
      && Nat(p[i := p[i] + Shl(b, t)]) == Nat(p) + b * Pow2(8 * j)
  {
    hide Nat, Pow, Pow2, BitOr, Shl;
    var i, t := j / CIL, j % CIL * 8;
    BytePosition(j);
    LimbBelow(p, i, t);
    ByteFits(b, t);
    BitOrDisjoint(Shl(b, t), p[i], t);
    NatUpdate(p, i, p[i] + Shl(b, t));
    PowIsPow2(i);
    Pow2Add(BIL * i, t);
    Exchange(Pow(i), b, Pow2(t));
  }
  lemma LimbBelow(p: seq<Limb>, i: nat, t: nat)
    requires i < |p| && Nat(p) < Pow2(BIL * i + t)
    ensures p[i] < Pow2(t)
  {
    hide Nat, Pow, Pow2;
    NatDivMod(p, i);
    NatCons(p, i);
    PowIsPow2(i);
    Pow2Add(BIL * i, t);
    DivLess(Nat(p), Pow(i), Pow2(t));
  }

  lemma ByteFits(b: Byte, t: nat)
    requires t % 8 == 0 && t < BIL
    ensures Shl(b, t) == b * Pow2(t) && Shl(b, t) % Pow2(t) == 0 && Shl(b, t) + Pow2(t) <= BASE
  {
    hide Pow2;
    assert 256 * Pow2(t) <= BASE by {
      Pow2Values();
      Pow2Add(8, t);
      Pow2Mono(8 + t, 32);
    }
    ByteScaled(b, Pow2(t));
  }

  lemma ByteScaled(b: nat, p: nat)
    requires b < 256 && p > 0
    ensures b * p + p <= 256 * p && (b * p) % p == 0
  {
    MulMono(p, b + 1, 256);
    DivUnique(b * p, p, b, 0);
  }

  /** X = the number in buf. */
  method ReadBinary(X: Mpi, buf: seq<Byte>)
    modifies X
    ensures X.s == 1 && |X.p| >= 1 && |X.p| >= |old(X.p)| && Nat(X.p) == BytesNat(buf)
  {
    hide Nat, Pow, Pow2, BitOr, Shl, BytesNat;
    var n := 0;
    while n < |buf| && buf[n] == 0
      invariant n <= |buf| && forall k :: 0 <= k < n ==> buf[k] == 0
    {
      n := n + 1;
    }
    X.Grow((|buf| - n + CIL - 1) / CIL);
    X.Lset(0);
    var i, j := |buf|, 0;
    BytesZeros(buf[|buf|..]);
    while i > n
      invariant n <= i <= |buf| && j == |buf| - i && X.s == 1 && |X.p| >= 1 && |X.p| >= |old(X.p)|
      invariant |X.p| >= (|buf| - n + CIL - 1) / CIL
      invariant Nat(X.p) == BytesNat(buf[i..])
    {
      BytesBound(buf[i..]);
      PlaceByte(X.p, j, buf[i - 1]);
      BytesCons(buf, i);
      X.p := X.p[j / CIL := BitOr(X.p[j / CIL], Shl(buf[i - 1], j % CIL * 8))];
      i, j := i - 1, j + 1;
    }
    BytesZeros(buf[..n]);
    BytesAppend(buf[..n], buf[n..]);
    assert buf == buf[..n] + buf[n..];
    assert 0 * Pow2(8 * (|buf| - n)) == 0;
  }

  // ---------- export ----------

  /** Byte j of v. */
  function ByteAt(v: nat, j: nat): (b: Byte) {
    Down(v, 8 * j) % 256
  }

  /** The low n bytes of v, most significant first. */
  function BytesOf(v: nat, n: nat): (s: seq<Byte>)
    ensures |s| == n
  {
    if n == 0 then [] else BytesOf(v / 256, n - 1) + [v % 256]
  }

  lemma {:induction false} BytesOfNat(v: nat, n: nat)
    requires v < Pow2(8 * n)
    ensures BytesNat(BytesOf(v, n)) == v
  {
    Pow2Zero();
    if n > 0 {
      Pow2Add(8 * (n - 1), 8);
      assert Pow2(8) == 256 by { Pow2Values(); }
      DivLess(v, 256, Pow2(8 * (n - 1)));
      BytesOfNat(v / 256, n - 1);
      var s := BytesOf(v, n);
      assert s[..n - 1] == BytesOf(v / 256, n - 1) && s[n - 1] == v % 256;
    }
  }

  lemma {:induction false} BytesOfAt(v: nat, n: nat, j: nat)
    requires j < n
    ensures BytesOf(v, n)[n - 1 - j] == ByteAt(v, j)
  {
    Pow2Zero();
    if j > 0 {
      BytesOfAt(v / 256, n - 1, j - 1);
      Pow2Add(8, 8 * (j - 1));
      assert Pow2(8) == 256 by { Pow2Values(); }
      DivDiv(v, 256, Pow2(8 * (j - 1)));
    }
  }

  /** Byte j of the number is a byte of limb j / 4. */
  lemma ByteOfLimb(p: seq<Limb>, j: nat)
    requires j < CIL * |p|
    ensures Shr(p[j / CIL], j % CIL * 8) % 256 == ByteAt(Nat(p), j)
  {
    hide Nat, Pow, Pow2;
    var i, t := j / CIL, j % CIL * 8;
    BytePosition(j);
    LimbsFrom(p, i);
    Pow2Add(BIL * i, t);
    DivDiv(Nat(p), Pow2(BIL * i), Pow2(t));
    LowByte(p[i], Nat(p[i + 1..]), t);
  }

  lemma BytePosition(j: nat)
    ensures 8 * j == BIL * (j / CIL) + j % CIL * 8 && j % CIL * 8 <= BIL - 8
  {
  }

  lemma LowByte(x: Limb, h: nat, t: nat)
    requires t % 8 == 0 && t < BIL
    ensures (x + BASE * h) / Pow2(t) % 256 == x / Pow2(t) % 256
  {
    hide Pow2;
    var p, w := Pow2(t), Pow2(BIL - t - 8);
    assert p * (256 * w) == BASE by {
      Pow2Values();
      Pow2Add(t, BIL - t);
      Pow2Add(8, BIL - t - 8);
    }
    HighPart256(p, w, h);
    MulAdd(p, x / p, 256 * (w * h));
    DivUnique(x + BASE * h, p, x / p + 256 * (w * h), x % p);
    ModAddMultiple(x / p, w * h, 256);
  }

  lemma HighPart256(p: nat, w: nat, h: nat)
    requires p * (256 * w) == BASE
    ensures BASE * h == p * (256 * (w * h))
  {
    assert (p * (256 * w)) * h == p * ((256 * w) * h);
    assert (256 * w) * h == 256 * (w * h);
  }

  /** buf[off..off+buflen] = X, left-padded with zeros; refused exactly when it does not fit. */
  method WriteBinary(X: Mpi, buf: array<Byte>, off: nat, buflen: nat) returns (r: Ret)
    requires |X.p| >= 1 && off + buflen <= buf.Length
    modifies buf
    ensures r == if buflen < ByteLen(Nat(X.p)) then Fail(BufferTooSmall) else Ok
    ensures r.Fail? ==> buf[..] == old(buf[..])
    ensures r.Ok? ==> buf[off..off + buflen] == BytesOf(Nat(X.p), buflen) && BytesNat(buf[off..off + buflen]) == Nat(X.p)
    ensures buf[..off] == old(buf[..off]) && buf[off + buflen..] == old(buf[off + buflen..])
  {
    hide Nat, Pow, Pow2, BytesNat, BytesOf, ByteAt, ByteLen, Shr;
    ghost var v := Nat(X.p);
    var n := Size(X);
    if buflen < n { return Fail(BufferTooSmall); }
    var k := 0;
    while k < buflen
      invariant 0 <= k <= buflen && buf[..off] == old(buf[..off]) && buf[off + buflen..] == old(buf[off + buflen..])
      invariant forall m :: off <= m < off + k ==> buf[m] == 0
    {
      buf[off + k] := 0;
      k := k + 1;
    }
    ByteLenBounds(v);
    LimbsCover(X.p);
    WriteBytes(X, buf, off, buflen, n);
    Pow2Mono(8 * n, 8 * buflen);
    BytesOfNat(v, buflen);
    return Ok;
  }

  lemma LimbsCover(p: seq<Limb>)
    ensures ByteLen(Nat(p)) <= CIL * |p|
  {
    hide Nat, Pow, Pow2;
    NatBound(p);
    PowIsPow2(|p|);
    ByteLenAtMost(Nat(p), CIL * |p|);
  }

  lemma ZeroByte(v: nat, j: nat, n: nat)
    requires v < Pow2(8 * n) && n <= j
    ensures ByteAt(v, j) == 0
  {
    hide Pow2;
    Pow2Mono(8 * n, 8 * j);
    ModSmall(v, Pow2(8 * j));
  }

  method WriteBytes(X: Mpi, buf: array<Byte>, off: nat, buflen: nat, n: nat)
    requires off + buflen <= buf.Length && n <= buflen && n <= CIL * |X.p| && Nat(X.p) < Pow2(8 * n)
    requires forall m :: off <= m < off + buflen ==> buf[m] == 0
    modifies buf
    ensures buf[off..off + buflen] == BytesOf(Nat(X.p), buflen)
    ensures buf[..off] == old(buf[..off]) && buf[off + buflen..] == old(buf[off + buflen..])
  {
    hide Nat, Pow, Pow2, BytesNat, BytesOf, ByteAt, Shr;
    var j := 0;
    ghost var v := Nat(X.p);
    while j < n
      invariant 0 <= j <= n && buf[..off] == old(buf[..off]) && buf[off + buflen..] == old(buf[off + buflen..])
      invariant forall m :: 0 <= m < j ==> buf[off + buflen - 1 - m] == ByteAt(v, m)
      invariant forall m :: off <= m < off + buflen - j ==> buf[m] == 0
    {
      ByteOfLimb(X.p, j);
      buf[off + buflen - 1 - j] := Shr(X.p[j / CIL], j % CIL * 8) % 256;
      j := j + 1;
    }
    forall k | 0 <= k < buflen ensures buf[off..off + buflen][k] == BytesOf(v, buflen)[k] {
      var m := buflen - 1 - k;
      BytesOfAt(v, buflen, m);
      if m < n { assert buf[off + buflen - 1 - m] == ByteAt(v, m); } else { ZeroByte(v, m, n); }
    }
  }
}
