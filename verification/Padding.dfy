/** The padding schemes of cipher.c: how a last block is filled and how it is read back. */
module Padding {
  import opened BlockCipher

  datatype Scheme = Pkcs7 | OneAndZeros | ZerosAndLen | ZeroPad | NoPadding

  function Fill(n: nat, x: byte): (r: seq<byte>)
    ensures |r| == n
    ensures forall i :: 0 <= i < n ==> r[i] == x
  {
    seq(n, i => x)
  }

  /** data filled up to total bytes, which may not be full already. */
  function Padded(scheme: Scheme, data: seq<byte>, total: nat): (r: seq<byte>)
    requires |data| < total <= BLOCK && scheme != NoPadding
    ensures |r| == total && r[..|data|] == data
  {
    var n := total - |data|;
    match scheme
    case Pkcs7 => data + Fill(n, ByteOf(n))
    case OneAndZeros => data + [0x80] + Fill(n - 1, 0)
    case ZerosAndLen => data + Fill(n - 1, 0) + [ByteOf(n)]
    case ZeroPad => data + Fill(n, 0)
  }

  ghost predicate IsPadded(scheme: Scheme, s: seq<byte>, d: nat) {
    d < |s| <= BLOCK && scheme != NoPadding && s == Padded(scheme, s[..d], |s|)
  }

  /** Byte k of n bytes of padding, as a number. */
  function PadNumber(scheme: Scheme, n: nat, k: nat): nat {
    match scheme
    case Pkcs7 => n
    case OneAndZeros => if k == 0 then 128 else 0
    case ZerosAndLen => if k + 1 == n then n else 0
    case _ => 0
  }

  ghost predicate PadsFrom(scheme: Scheme, s: seq<byte>, d: nat) {
    forall i :: d <= i < |s| ==> s[i] as nat == PadNumber(scheme, |s| - d, i - d)
  }

  /** A block is padded behind its first d bytes exactly when these are the numbers that follow. */
  lemma PaddingDefinition(scheme: Scheme, s: seq<byte>, d: nat)
    ensures IsPadded(scheme, s, d) <==> d < |s| <= BLOCK && scheme != NoPadding && PadsFrom(scheme, s, d)
  {
    if d < |s| <= BLOCK && scheme != NoPadding {
      hide Padded, PadsFrom;
      var r := Padded(scheme, s[..d], |s|);
      PaddedNumbers(scheme, s[..d], |s|);
      if PadsFrom(scheme, s, d) {
        SamePadding(scheme, s, r, d);
      }
    }
  }

  lemma PaddedNumbers(scheme: Scheme, data: seq<byte>, total: nat)
    requires |data| < total <= BLOCK && scheme != NoPadding
    ensures PadsFrom(scheme, Padded(scheme, data, total), |data|)
  {
    hide Padded, PadNumber;
    forall i | |data| <= i < total
      ensures Padded(scheme, data, total)[i] as nat == PadNumber(scheme, total - |data|, i - |data|)
    {
      PaddedByte(scheme, data, total, i - |data|);
    }
  }

  lemma SamePadding(scheme: Scheme, s: seq<byte>, r: seq<byte>, d: nat)
    requires d <= |s| == |r| && r[..d] == s[..d] && PadsFrom(scheme, s, d) && PadsFrom(scheme, r, d)
    ensures s == r
  {
    hide PadNumber;
    SameBehind(s, r, d);
  }

  lemma SameBehind(s: seq<byte>, r: seq<byte>, d: nat)
    requires d <= |s| == |r| && r[..d] == s[..d] && forall i :: d <= i < |s| ==> s[i] as nat == r[i] as nat
    ensures s == r
  {
    forall i | d <= i < |s| ensures s[i] == r[i] {
      SameByte(s[i], r[i]);
    }
    assert s == s[..d] + s[d..] && r == r[..d] + r[d..];
  }

  lemma SameByte(x: byte, y: byte)
    requires x as nat == y as nat
    ensures x == y
  {
  }

  lemma PaddedByte(scheme: Scheme, data: seq<byte>, total: nat, k: nat)
    requires |data| < total <= BLOCK && scheme != NoPadding && k < total - |data|
    ensures Padded(scheme, data, total)[|data| + k] as nat == PadNumber(scheme, total - |data|, k)
  {
    MarkNumber();
    hide ByteOf;
  }

  lemma MarkNumber()
    ensures 0x80 as byte as nat == 128 && 0 as byte as nat == 0
  {
  }

  /** The length of s without the zeros at its end. */
  function Trim(s: seq<byte>): (n: nat)
    ensures n <= |s|
    ensures n > 0 ==> s[n - 1] != 0
    ensures forall i :: n <= i < |s| ==> s[i] == 0
  {
    if s == [] then 0
    else if s[|s| - 1] != 0 then |s|
    else Trim(s[..|s| - 1])
  }

  /** The single bits that the check of one-and-zeros padding looks at one by one. */
  const MIDDLE_BITS: set<byte> := {0x02, 0x04, 0x08, 0x10, 0x20, 0x40}

  ghost predicate HighByte(s: seq<byte>) {
    exists j :: 0 <= j < |s| && s[j] >= 0x80
  }

  /** Bit m is clear in some byte other than byte t. */
  ghost predicate ClearElsewhere(s: seq<byte>, t: nat, m: byte) {
    exists j :: 0 <= j < |s| && j != t && s[j] & m == 0
  }

  /**
    * What passes for one-and-zeros padding: the last byte that is not zero is even, some byte is 0x80
    * or more, and every other bit of that last byte is clear in another byte.
    */
  ghost predicate LooksPadded(s: seq<byte>) {
    var t := Trim(s);
    && t > 0 && s[t - 1] & 1 == 0 && HighByte(s)
    && forall m :: m in MIDDLE_BITS && s[t - 1] & m != 0 ==> ClearElsewhere(s, t - 1, m)
  }

  /** What reading the padding of s back may answer; len means nothing when !ok. */
  ghost predicate Unpads(scheme: Scheme, s: seq<byte>, ok: bool, len: int) {
    match scheme
    case OneAndZeros =>
      (ok <==> LooksPadded(s)) && (ok ==> len == Trim(s) - 1)
    case ZeroPad => ok && len == Trim(s)
    case NoPadding => ok && len == |s|
    case _ =>
      && (ok ==> len >= 0 && IsPadded(scheme, s, len))
      && (!ok ==> forall d: nat :: !IsPadded(scheme, s, d))
  }

  lemma LastPadByte(scheme: Scheme, s: seq<byte>, d: nat)
    requires scheme == Pkcs7 || scheme == ZerosAndLen
    requires IsPadded(scheme, s, d)
    ensures s[|s| - 1] as nat == |s| - d
  {
    var n := |s| - d;
    var x := ByteOf(n);
    if scheme == Pkcs7 {
      assert s[|s| - 1] == Fill(n, x)[n - 1];
    } else {
      assert s[|s| - 1] == [x][0];
    }
  }

  /** Every scheme but zero padding gives the data back, whatever it was. */
  lemma PaddingRoundTrip(scheme: Scheme, data: seq<byte>, total: nat, ok: bool, len: int)
    requires |data| < total <= BLOCK && scheme != NoPadding && scheme != ZeroPad
    requires Unpads(scheme, Padded(scheme, data, total), ok, len)
    ensures ok && len == |data|
  {
    var s := Padded(scheme, data, total);
    assert IsPadded(scheme, s, |data|);
    if scheme != OneAndZeros {
      LastPadByte(scheme, s, |data|);
      LastPadByte(scheme, s, len);
    } else {
      MarkIsLast(s, |data|);
      MarkLooksPadded(s);
    }
  }

  /** Zero padding gives the data back exactly when it does not end in a zero byte. */
  lemma ZeroPaddingExact(data: seq<byte>, total: nat, ok: bool, len: int)
    requires |data| < total <= BLOCK
    requires Unpads(ZeroPad, Padded(ZeroPad, data, total), ok, len)
    ensures ok && len <= |data|
    ensures len == |data| <==> data == [] || data[|data| - 1] != 0
  {
    var s := Padded(ZeroPad, data, total);
    assert forall i :: |data| <= i < total ==> s[i] == 0;
    if data != [] {
      assert s[|data| - 1] == data[|data| - 1];
    }
  }

  // ---- Filling a block in place ----

  method AddPkcsPadding(output: array<byte>, outputLen: nat, dataLen: nat)
    requires dataLen < outputLen <= output.Length && outputLen <= BLOCK
    modifies output
    ensures output[..] == Spliced(old(output[..]), 0, Padded(Pkcs7, old(output[..dataLen]), outputLen))
  {
    ghost var before := output[..];
    var paddingLen := outputLen - dataLen;
    var i := 0;
    while i < paddingLen
      invariant i <= paddingLen
      invariant forall j :: 0 <= j < output.Length ==>
        output[j] == if dataLen <= j < dataLen + i then ByteOf(paddingLen) else before[j]
    {
      output[dataLen + i] := ByteOf(paddingLen);
      i := i + 1;
    }
    SplicedBy(before, 0, Padded(Pkcs7, before[..dataLen], outputLen), output[..]);
  }

  method AddOneAndZerosPadding(output: array<byte>, outputLen: nat, dataLen: nat)
    requires dataLen < outputLen <= output.Length && outputLen <= BLOCK
    modifies output
    ensures output[..] == Spliced(old(output[..]), 0, Padded(OneAndZeros, old(output[..dataLen]), outputLen))
  {
    ghost var before := output[..];
    var paddingLen := outputLen - dataLen;
    output[dataLen] := 0x80;
    var i := 1;
    while i < paddingLen
      invariant 1 <= i <= paddingLen
      invariant forall j :: 0 <= j < output.Length ==>
        output[j] == if j == dataLen then 0x80 else if dataLen < j < dataLen + i then 0 else before[j]
    {
      output[dataLen + i] := 0;
      i := i + 1;
    }
    SplicedBy(before, 0, Padded(OneAndZeros, before[..dataLen], outputLen), output[..]);
  }

  method AddZerosAndLenPadding(output: array<byte>, outputLen: nat, dataLen: nat)
    requires dataLen < outputLen <= output.Length && outputLen <= BLOCK
    modifies output
    ensures output[..] == Spliced(old(output[..]), 0, Padded(ZerosAndLen, old(output[..dataLen]), outputLen))
  {
    ghost var before := output[..];
    var paddingLen := outputLen - dataLen;
    var i := 1;
    while i < paddingLen
      invariant 1 <= i <= paddingLen
      invariant forall j :: 0 <= j < output.Length ==>
        output[j] == if dataLen <= j < dataLen + i - 1 then 0 else before[j]
    {
      output[dataLen + i - 1] := 0;
      i := i + 1;
    }
    output[outputLen - 1] := ByteOf(paddingLen);
    SplicedBy(before, 0, Padded(ZerosAndLen, before[..dataLen], outputLen), output[..]);
  }

  method AddZerosPadding(output: array<byte>, outputLen: nat, dataLen: nat)
    requires dataLen < outputLen <= output.Length && outputLen <= BLOCK
    modifies output
    ensures output[..] == Spliced(old(output[..]), 0, Padded(ZeroPad, old(output[..dataLen]), outputLen))
  {
    ghost var before := output[..];
    var i := dataLen;
    while i < outputLen
      invariant dataLen <= i <= outputLen
      invariant forall j :: 0 <= j < output.Length ==>
        output[j] == if dataLen <= j < i then 0 else before[j]
    {
      output[i] := 0;
      i := i + 1;
    }
    SplicedBy(before, 0, Padded(ZeroPad, before[..dataLen], outputLen), output[..]);
  }

  // ---- Reading it back, without branching on the data ----

  const SIZE: nat := 0x1_0000_0000

  /** a - b in size_t. */
  function SizeMinus(a: nat, b: nat): nat
    requires a < SIZE && b < SIZE
  {
    if b <= a then a - b else a + SIZE - b
  }

  lemma OrIsZero(a: byte, b: byte)
    ensures a | b == 0 <==> a == 0 && b == 0
    ensures a ^ b == 0 <==> a == b
  {
  }

  method GetPkcsPadding(s: seq<byte>) returns (ok: bool, dataLen: nat)
    requires 0 < |s| <= BLOCK
    ensures Unpads(Pkcs7, s, ok, dataLen)
    ensures ok ==> dataLen <= |s|
  {
    var paddingLen := s[|s| - 1];
    var n := paddingLen as nat;
    dataLen := SizeMinus(|s|, n);
    var bad: byte := if n > |s| || n == 0 then 1 else 0;
    var padIdx := SizeMinus(|s|, n);
    var i := 0;
    while i < |s|
      invariant i <= |s|
      invariant bad == 0 <==> 0 < n <= |s| && forall j :: 0 <= j < i && j >= padIdx ==> s[j] == paddingLen
    {
      OrIsZero(bad, if i >= padIdx then s[i] ^ paddingLen else 0);
      OrIsZero(s[i], paddingLen);
      bad := bad | if i >= padIdx then s[i] ^ paddingLen else 0;
      i := i + 1;
    }
    ok := bad == 0;
    PkcsRead(s, n, ok);
  }

  lemma PkcsShape(s: seq<byte>, d: nat)
    requires IsPadded(Pkcs7, s, d)
    ensures s[|s| - 1] as nat == |s| - d
    ensures forall j :: d <= j < |s| ==> s[j] == s[|s| - 1]
  {
    var n := |s| - d;
    var x := ByteOf(n);
    assert s == s[..d] + Fill(n, x);
    assert forall j :: d <= j < |s| ==> s[j] == Fill(n, x)[j - d];
  }

  lemma PkcsRead(s: seq<byte>, n: nat, ok: bool)
    requires 0 < |s| <= BLOCK && n == s[|s| - 1] as nat
    requires ok <==> 0 < n <= |s| && forall j :: 0 <= j < |s| && j >= |s| - n ==> s[j] == s[|s| - 1]
    ensures ok ==> IsPadded(Pkcs7, s, |s| - n)
    ensures !ok ==> forall d: nat :: !IsPadded(Pkcs7, s, d)
  {
    if ok {
      assert s == s[..|s| - n] + Fill(n, ByteOf(n));
    } else {
      forall d: nat ensures !IsPadded(Pkcs7, s, d) {
        if IsPadded(Pkcs7, s, d) {
          PkcsShape(s, d);
        }
      }
    }
  }

  method GetZerosAndLenPadding(s: seq<byte>) returns (ok: bool, dataLen: nat)
    requires 0 < |s| <= BLOCK
    ensures Unpads(ZerosAndLen, s, ok, dataLen)
    ensures ok ==> dataLen <= |s|
  {
    var n := s[|s| - 1] as nat;
    dataLen := SizeMinus(|s|, n);
    var bad: byte := if n > |s| || n == 0 then 1 else 0;
    var padIdx := SizeMinus(|s|, n);
    var i := 0;
    while i < |s| - 1
      invariant i <= |s| - 1
      invariant bad == 0 <==> 0 < n <= |s| && forall j :: 0 <= j < i && j >= padIdx ==> s[j] == 0
    {
      OrIsZero(bad, if i >= padIdx then s[i] else 0);
      bad := bad | if i >= padIdx then s[i] else 0;
      i := i + 1;
    }
    ok := bad == 0;
    ZerosAndLenRead(s, n, ok);
  }

  lemma ZerosAndLenShape(s: seq<byte>, d: nat)
    requires IsPadded(ZerosAndLen, s, d)
    ensures s[|s| - 1] as nat == |s| - d
    ensures forall j :: d <= j < |s| - 1 ==> s[j] == 0
  {
    LastPadByte(ZerosAndLen, s, d);
    assert forall j :: d <= j < |s| - 1 ==> s[j] == Fill(|s| - d - 1, 0)[j - d];
  }

  lemma ZerosAndLenRead(s: seq<byte>, n: nat, ok: bool)
    requires 0 < |s| <= BLOCK && n == s[|s| - 1] as nat
    requires ok <==> 0 < n <= |s| && forall j :: 0 <= j < |s| - 1 && j >= |s| - n ==> s[j] == 0
    ensures ok ==> IsPadded(ZerosAndLen, s, |s| - n)
    ensures !ok ==> forall d: nat :: !IsPadded(ZerosAndLen, s, d)
  {
    if ok {
      assert s == s[..|s| - n] + Fill(n - 1, 0) + [ByteOf(n)];
    } else {
      forall d: nat ensures !IsPadded(ZerosAndLen, s, d) {
        if IsPadded(ZerosAndLen, s, d) {
          ZerosAndLenShape(s, d);
        }
      }
    }
  }

  /** What a byte other than the last nonzero one leaves of the running mask. */
  function Trace(x: byte): byte {
    (x ^ 0x80) | 1
  }

  /** What all bytes of s leave of it. */
  function Mask(s: seq<byte>): byte {
    if s == [] then 0xFF else Mask(s[1..]) & Trace(s[0])
  }

  /** The mask at the end, when byte t is the last one that is not zero. */
  function Residue(s: seq<byte>, t: nat): byte
    requires t < |s|
  {
    (s[t] ^ 0x80) & Mask(s[..t] + s[t + 1..])
  }

  /** The running mask, done meaning that the last nonzero byte has been met. */
  ghost predicate MaskedFrom(s: seq<byte>, i: nat, done: bool, bad: byte) {
    var t := Trim(s);
    i <= |s| && if done then i < t && bad == (s[t - 1] ^ 0x80) & Mask(s[i..t - 1] + s[t..]) else t <= i && bad == Mask(s[i..])
  }

  /** What one byte leaves of the mask; the mark must be 0x80 in all its bits. */
  function MaskByte(bad: byte, x: byte, mark: bool): byte {
    bad & ((x ^ 0x80) | if mark then 0 else 1)
  }

  lemma MaskStep(s: seq<byte>, i: nat, done: bool, bad: byte)
    requires 0 < i && MaskedFrom(s, i, done, bad)
    ensures
      var now := done || s[i - 1] != 0;
      && MaskedFrom(s, i - 1, now, MaskByte(bad, s[i - 1], now != done))
      && (now != done ==> Trim(s) == i)
  {
    if done {
      MaskBefore(s, i, bad);
    } else if s[i - 1] != 0 {
      MaskMark(s, i, bad);
    } else {
      assert s[i - 1..] == [s[i - 1]] + s[i..];
      MaskCons(s[i - 1], s[i..]);
    }
  }

  lemma MaskBefore(s: seq<byte>, i: nat, bad: byte)
    requires 0 < i && MaskedFrom(s, i, true, bad)
    ensures MaskedFrom(s, i - 1, true, MaskByte(bad, s[i - 1], false))
  {
    var t, x := Trim(s), s[i - 1];
    hide Mask, Trim;
    var rest := s[i..t - 1] + s[t..];
    assert s[i - 1..t - 1] == [x] + s[i..t - 1];
    assert s[i - 1..t - 1] + s[t..] == [x] + rest;
    MaskCons(x, rest);
    AndAssociates(s[t - 1] ^ 0x80, Mask(rest), (x ^ 0x80) | 1);
  }

  lemma MaskMark(s: seq<byte>, i: nat, bad: byte)
    requires 0 < i && MaskedFrom(s, i, false, bad) && s[i - 1] != 0
    ensures Trim(s) == i && MaskedFrom(s, i - 1, true, MaskByte(bad, s[i - 1], true))
  {
    hide Mask, MaskByte;
    assert Trim(s) == i;
    hide Trim;
    assert s[i - 1..i - 1] + s[i..] == s[i..];
    MarkByte(bad, s[i - 1]);
  }

  lemma MaskCons(x: byte, s: seq<byte>)
    ensures Mask([x] + s) == Mask(s) & Trace(x)
  {
    assert ([x] + s)[1..] == s;
  }

  lemma AndAssociates(a: byte, b: byte, c: byte)
    ensures a & (b & c) == (a & b) & c
  {
  }

  lemma MarkByte(a: byte, x: byte)
    ensures MaskByte(a, x, true) == (x ^ 0x80) & a
  {
  }

  /** Bit 0 of the mask stays set. */
  lemma {:induction false} MaskIsOdd(s: seq<byte>)
    ensures Mask(s) & 1 == 1 && Mask(s) != 0
  {
    if s != [] {
      MaskIsOdd(s[1..]);
      OddAnd(Mask(s[1..]), s[0] ^ 0x80);
    }
  }

  lemma OddAnd(a: byte, b: byte)
    requires a & 1 == 1
    ensures (a & (b | 1)) & 1 == 1
  {
  }

  /** dataLen is 0 when done first changes, so the source's |= is an assignment here. */
  method GetOneAndZerosPadding(s: seq<byte>) returns (ok: bool, dataLen: nat)
    requires |s| <= BLOCK
    ensures Unpads(OneAndZeros, s, ok, dataLen)
    ensures dataLen == if Trim(s) > 0 then Trim(s) - 1 else 0
  {
    hide Mask, Trim, MaskedFrom, LooksPadded, MaskByte;
    var done := false;
    var bad: byte := 0xFF;
    dataLen := 0;
    var i := |s|;
    NothingMasked(s);
    while i > 0
      invariant 0 <= i <= |s| && MaskedFrom(s, i, done, bad)
      invariant if done then dataLen + 1 == Trim(s) else dataLen == 0
    {
      MaskStep(s, i, done, bad);
      var prev := done;
      done := done || s[i - 1] != 0;
      if done != prev {
        dataLen := i - 1;
      }
      bad := MaskByte(bad, s[i - 1], done != prev);
      i := i - 1;
    }
    ok := bad == 0;
    MaskedAll(s, done, bad);
  }

  lemma MaskedAll(s: seq<byte>, done: bool, bad: byte)
    requires MaskedFrom(s, 0, done, bad)
    ensures done <==> Trim(s) > 0
    ensures bad == 0 <==> LooksPadded(s)
    ensures bad == 0 ==> done
  {
    var t := Trim(s);
    hide Mask, LooksPadded;
    NothingLooksPadded(s);
    if done {
      ResidueExact(s);
      assert s[0..t - 1] + s[t..] == s[..t - 1] + s[t - 1 + 1..];
      assert bad == Residue(s, t - 1);
    } else {
      assert s[0..] == s;
      MaskIsOdd(s);
      assert bad == Mask(s) && t == 0;
    }
  }

  lemma NothingMasked(s: seq<byte>)
    ensures MaskedFrom(s, |s|, false, 0xFF)
  {
    assert s[|s|..] == [];
  }

  // ---- The mask, bit by bit ----

  predicate IsBit(m: byte) {
    m == 0x80 || m == 0x40 || m == 0x20 || m == 0x10 || m == 8 || m == 4 || m == 2 || m == 1
  }

  lemma AndBit(a: byte, b: byte, m: byte)
    requires IsBit(m)
    ensures (a & b) & m == 0 <==> a & m == 0 || b & m == 0
  {
  }

  lemma AllBitsClear(a: byte)
    ensures a == 0 <==> a & 0x80 == 0 && a & 0x40 == 0 && a & 0x20 == 0 && a & 0x10 == 0 && a & 8 == 0 && a & 4 == 0 && a & 2 == 0 && a & 1 == 0
  {
  }

  /** x takes bit m out of the mask. */
  ghost predicate Clears(x: byte, m: byte) {
    Trace(x) & m == 0
  }

  lemma ClearsIs(x: byte, m: byte)
    ensures !Clears(x, 1) && (Clears(x, 0x80) <==> x >= 0x80)
    ensures m in MIDDLE_BITS ==> (Clears(x, m) <==> x & m == 0)
  {
  }

  /** How a bit of the last nonzero byte enters: the top bit is to be set, the others clear. */
  lemma MarkBit(x: byte, m: byte)
    ensures ((x ^ 0x80) & 0x80 == 0 <==> x >= 0x80) && (x ^ 0x80) & 1 == x & 1
    ensures m in MIDDLE_BITS ==> (x ^ 0x80) & m == x & m
  {
  }

  ghost predicate SomeClears(s: seq<byte>, m: byte) {
    exists j :: 0 <= j < |s| && Clears(s[j], m)
  }

  lemma SomeClearsStep(s: seq<byte>, m: byte)
    requires s != []
    ensures SomeClears(s, m) <==> Clears(s[0], m) || SomeClears(s[1..], m)
  {
    hide Clears;
    if SomeClears(s[1..], m) {
      var j :| 0 <= j < |s[1..]| && Clears(s[1..][j], m);
      assert s[j + 1] == s[1..][j];
    }
    if j :| 0 <= j < |s| && Clears(s[j], m) {
      if j > 0 { assert s[1..][j - 1] == s[j]; }
    }
  }

  /** A bit is clear in the mask exactly when some byte clears it. */
  lemma {:induction false} MaskBit(s: seq<byte>, m: byte)
    requires IsBit(m)
    ensures Mask(s) & m == 0 <==> SomeClears(s, m)
  {
    if s == [] {
      FullByte(m);
    } else {
      MaskBit(s[1..], m);
      SomeClearsStep(s, m);
      AndBit(Mask(s[1..]), Trace(s[0]), m);
      hide IsBit, SomeClears, Trace;
    }
  }

  lemma FullByte(m: byte)
    requires IsBit(m)
    ensures 0xFF & m != 0
  {
  }

  /** The same among all bytes but byte t. */
  ghost predicate OtherClears(s: seq<byte>, t: nat, m: byte) {
    exists j :: 0 <= j < |s| && j != t && Clears(s[j], m)
  }

  lemma OtherBytes(s: seq<byte>, t: nat, m: byte)
    requires t < |s|
    ensures SomeClears(s[..t] + s[t + 1..], m) <==> OtherClears(s, t, m)
  {
    hide Clears;
    var o := s[..t] + s[t + 1..];
    if SomeClears(o, m) {
      var j :| 0 <= j < |o| && Clears(o[j], m);
      assert s[if j < t then j else j + 1] == o[j];
    }
    if OtherClears(s, t, m) {
      var k :| 0 <= k < |s| && k != t && Clears(s[k], m);
      assert s[k] == o[if k < t then k else k - 1];
    }
  }

  /** Which bit of the last nonzero byte is let pass. */
  ghost predicate BitPasses(s: seq<byte>, t: nat, m: byte)
    requires t < |s|
  {
    (s[t] ^ 0x80) & m == 0 || OtherClears(s, t, m)
  }

  lemma ResidueBit(s: seq<byte>, t: nat, m: byte)
    requires t < |s| && IsBit(m)
    ensures Residue(s, t) & m == 0 <==> BitPasses(s, t, m)
  {
    MaskBit(s[..t] + s[t + 1..], m);
    OtherBytes(s, t, m);
    AndBit(s[t] ^ 0x80, Mask(s[..t] + s[t + 1..]), m);
    hide IsBit, SomeClears, OtherClears, Mask;
  }

  lemma ResidueBits(s: seq<byte>, t: nat)
    requires t < |s|
    ensures Residue(s, t) == 0 <==> forall m :: IsBit(m) ==> BitPasses(s, t, m)
  {
    hide Residue, BitPasses;
    forall m | IsBit(m) ensures Residue(s, t) & m == 0 <==> BitPasses(s, t, m) {
      ResidueBit(s, t, m);
    }
    AllBitsClear(Residue(s, t));
    assert IsBit(0x80) && IsBit(0x40) && IsBit(0x20) && IsBit(0x10) && IsBit(8) && IsBit(4) && IsBit(2) && IsBit(1);
  }

  lemma LowBitPasses(s: seq<byte>, t: nat)
    requires t < |s|
    ensures BitPasses(s, t, 1) <==> s[t] & 1 == 0
  {
    hide Clears;
    MarkBit(s[t], 1);
    forall j | 0 <= j < |s| ensures !Clears(s[j], 1) { ClearsIs(s[j], 1); }
  }

  lemma HighBitPasses(s: seq<byte>, t: nat)
    requires t < |s|
    ensures BitPasses(s, t, 0x80) <==> HighByte(s)
  {
    hide Clears;
    MarkBit(s[t], 1);
    forall j | 0 <= j < |s| ensures Clears(s[j], 0x80) <==> s[j] >= 0x80 { ClearsIs(s[j], 1); }
  }

  lemma MiddleBitPasses(s: seq<byte>, t: nat, m: byte)
    requires t < |s| && m in MIDDLE_BITS
    ensures BitPasses(s, t, m) <==> s[t] & m == 0 || ClearElsewhere(s, t, m)
  {
    hide Clears, MIDDLE_BITS;
    MarkBit(s[t], m);
    forall j | 0 <= j < |s| ensures Clears(s[j], m) <==> s[j] & m == 0 { ClearsIs(s[j], m); }
  }

  /** The mask has vanished exactly when the bytes look like a padding. */
  lemma ResidueExact(s: seq<byte>)
    requires Trim(s) > 0
    ensures Residue(s, Trim(s) - 1) == 0 <==> LooksPadded(s)
  {
    var t := Trim(s) - 1;
    hide Residue, Trim, BitPasses, HighByte, ClearElsewhere;
    ResidueBits(s, t);
    LowBitPasses(s, t);
    HighBitPasses(s, t);
    forall m | m in MIDDLE_BITS ensures BitPasses(s, t, m) <==> s[t] & m == 0 || ClearElsewhere(s, t, m) {
      MiddleBitPasses(s, t, m);
    }
    assert forall m :: IsBit(m) <==> m == 1 || m == 0x80 || m in MIDDLE_BITS;
  }

  /** With a zero byte behind it the last nonzero byte only has to be even, and some byte 0x80 or more. */
  lemma LooksPaddedBeforeZeros(s: seq<byte>)
    requires 0 < Trim(s) < |s|
    ensures LooksPadded(s) <==> s[Trim(s) - 1] & 1 == 0 && HighByte(s)
  {
    assert s[|s| - 1] == 0;
    forall m | m in MIDDLE_BITS ensures ClearElsewhere(s, Trim(s) - 1, m) {
      assert s[|s| - 1] & m == 0;
    }
  }

  /**
    * Reading back accepts a block exactly when it is a padding, unless the block only looks like one:
    * a last nonzero byte other than the mark, even, with its bits clear elsewhere and some byte 0x80 or more.
    */
  lemma OneAndZerosExact(s: seq<byte>, ok: bool, len: int)
    requires |s| <= BLOCK && Unpads(OneAndZeros, s, ok, len)
    ensures (ok <==> exists d: nat :: IsPadded(OneAndZeros, s, d)) <==> !(LooksPadded(s) && s[Trim(s) - 1] != 0x80)
    ensures ok && s[Trim(s) - 1] == 0x80 ==> IsPadded(OneAndZeros, s, len)
  {
    var t := Trim(s);
    hide Padded, LooksPadded, Trim;
    NothingLooksPadded(s);
    if t > 0 && s[t - 1] == 0x80 {
      MarkPads(s);
      MarkLooksPadded(s);
    }
    forall d: nat | IsPadded(OneAndZeros, s, d) ensures t > 0 && s[t - 1] == 0x80 {
      MarkIsLast(s, d);
    }
  }

  lemma NothingLooksPadded(s: seq<byte>)
    ensures Trim(s) == 0 ==> !LooksPadded(s)
  {
  }

  lemma MarkLooksPadded(s: seq<byte>)
    requires Trim(s) > 0 && s[Trim(s) - 1] == 0x80
    ensures LooksPadded(s)
  {
    hide Trim;
    MarkHasNoOther();
    assert s[Trim(s) - 1] >= 0x80;
  }

  lemma MarkHasNoOther()
    ensures (0x80 as byte) & 1 == 0 && forall m :: m in MIDDLE_BITS ==> (0x80 as byte) & m == 0
  {
  }

  /** A block whose last nonzero byte is the mark is a padding. */
  lemma MarkPads(s: seq<byte>)
    requires |s| <= BLOCK && Trim(s) > 0 && s[Trim(s) - 1] == 0x80
    ensures IsPadded(OneAndZeros, s, Trim(s) - 1)
  {
    var t, n := Trim(s), |s| - Trim(s);
    assert s[t..] == Fill(n, 0);
    Pieces(s, t);
  }

  lemma Pieces(s: seq<byte>, t: nat)
    requires 0 < t <= |s|
    ensures s == s[..t - 1] + [s[t - 1]] + s[t..]
  {
  }

  /** An odd last byte is always refused. */
  lemma OddMarkRefused(s: seq<byte>, ok: bool, len: int)
    requires Unpads(OneAndZeros, s, ok, len) && Trim(s) > 0 && s[Trim(s) - 1] & 1 == 1
    ensures !ok
  {
  }

  /** A block that is no padding and is accepted: 82 00, as no data at all. */
  lemma OneAndZerosLoose()
    ensures
      var s: seq<byte> := [0x82, 0];
      Unpads(OneAndZeros, s, true, 0) && forall d: nat :: !IsPadded(OneAndZeros, s, d)
  {
    var s: seq<byte> := [0x82, 0];
    assert s[..1] == [0x82] && Trim(s) == 1;
    LooksPaddedBeforeZeros(s);
    assert s[0] >= 0x80;
    forall d: nat | IsPadded(OneAndZeros, s, d) ensures false {
      MarkIsLast(s, d);
    }
  }

  lemma MarkIsLast(s: seq<byte>, d: nat)
    requires IsPadded(OneAndZeros, s, d)
    ensures Trim(s) == d + 1 && s[d] == 0x80
  {
    assert forall j :: d < j < |s| ==> s[j] == Fill(|s| - d - 1, 0)[j - d - 1];
  }

  method GetZerosPadding(s: seq<byte>) returns (dataLen: nat)
    ensures dataLen == Trim(s)
  {
    var done := false;
    dataLen := 0;
    var i := |s|;
    while i > 0
      invariant 0 <= i <= |s|
      invariant done <==> Trim(s) > i
      invariant dataLen == if done then Trim(s) else 0
    {
      var prev := done;
      done := done || s[i - 1] != 0;
      if done != prev {
        dataLen := i;
      }
      i := i - 1;
    }
  }

  /** ctx->add_padding. */
  method AddPadding(scheme: Scheme, output: array<byte>, outputLen: nat, dataLen: nat)
    requires dataLen < outputLen <= output.Length && outputLen <= BLOCK && scheme != NoPadding
    modifies output
    ensures output[..] == Spliced(old(output[..]), 0, Padded(scheme, old(output[..dataLen]), outputLen))
  {
    match scheme
    case Pkcs7 => AddPkcsPadding(output, outputLen, dataLen);
    case OneAndZeros => AddOneAndZerosPadding(output, outputLen, dataLen);
    case ZerosAndLen => AddZerosAndLenPadding(output, outputLen, dataLen);
    case ZeroPad => AddZerosPadding(output, outputLen, dataLen);
  }

  /** ctx->get_padding, on the block just decrypted. */
  method GetPadding(scheme: Scheme, s: seq<byte>) returns (ok: bool, dataLen: nat)
    requires 0 < |s| <= BLOCK
    ensures Unpads(scheme, s, ok, dataLen)
    ensures ok ==> dataLen <= |s|
  {
    match scheme
    case Pkcs7 => ok, dataLen := GetPkcsPadding(s);
    case OneAndZeros => ok, dataLen := GetOneAndZerosPadding(s);
    case ZerosAndLen => ok, dataLen := GetZerosAndLenPadding(s);
    case ZeroPad => dataLen := GetZerosPadding(s); ok := true;
    case NoPadding => ok, dataLen := true, |s|;
  }
}
