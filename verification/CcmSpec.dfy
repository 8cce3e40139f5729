/** Authenticated encryption as ccm.c formats, masks and tags it, and where that is the formatting of NIST SP 800-38C. */
module CcmSpec {
  import opened BlockCipher
  import opened Modes
  import opened StreamModes

  // ---- The formatting function ----

  /** x in q bytes, most significant first; higher digits are dropped. */
  function BigEndian(x: nat, q: nat): (r: seq<byte>)
    ensures |r| == q
  {
    if q == 0 then [] else BigEndian(x / 256, q - 1) + [ByteOf(x % 256)]
  }

  function CounterBytes(iv: seq<byte>): int {
    15 - |iv|
  }

  predicate Accepts(length: nat, iv: seq<byte>, addLen: nat, tagLen: nat) {
    && 4 <= tagLen <= 16 && tagLen % 2 == 0
    && 7 <= |iv| <= 13
    && addLen <= 0xFF00
    && length < Pow256(CounterBytes(iv))
  }

  function Flags(hasAdd: bool, tagLen: nat, q: nat): byte
    requires 4 <= tagLen <= 16 && 0 < q <= 8
  {
    (if hasAdd then 0x40 else 0) | (ByteOf((tagLen - 2) / 2) << 3) | ByteOf(q - 1)
  }

  function FirstBlock(length: nat, iv: seq<byte>, addLen: nat, tagLen: nat): Block
    requires Accepts(length, iv, addLen, tagLen)
  {
    [Flags(addLen > 0, tagLen, CounterBytes(iv))] + iv + BigEndian(length, CounterBytes(iv))
  }

  /** The number of blocks that n bytes take. */
  function Blocks(n: nat): (b: nat)
    ensures BLOCK * b < n + BLOCK && n <= BLOCK * b
  {
    (n + BLOCK - 1) / BLOCK
  }

  /** s with zeros up to a whole number of blocks. */
  function ZeroFilled(s: seq<byte>): (r: seq<byte>)
    ensures |r| == BLOCK * Blocks(|s|)
    ensures r[..|s|] == s
  {
    s + Zeros(BLOCK * Blocks(|s|) - |s|)
  }

  function AddBlocks(addLen: nat): nat {
    if addLen == 0 then 0 else Blocks(2 + addLen)
  }

  function Associated(add: seq<byte>): (r: seq<byte>)
    ensures |r| == BLOCK * AddBlocks(|add|)
  {
    if add == [] then [] else ZeroFilled(BigEndian(|add|, 2) + add)
  }

  /** All that is authenticated, as the blocks the MAC runs over. */
  function Formatted(iv: seq<byte>, add: seq<byte>, tagLen: nat, m: seq<byte>): (r: seq<byte>)
    requires Accepts(|m|, iv, |add|, tagLen)
    ensures |r| == BLOCK * (1 + AddBlocks(|add|) + Blocks(|m|))
  {
    FirstBlock(|m|, iv, |add|, tagLen) + Associated(add) + ZeroFilled(m)
  }

  /** The counter block for block i of the message, or for the tag when i is 0. */
  function CounterBlock(iv: seq<byte>, i: nat): Block
    requires 7 <= |iv| <= 13
  {
    [ByteOf(CounterBytes(iv) - 1)] + iv + BigEndian(i, CounterBytes(iv))
  }

  lemma {:induction false} BigEndianValue(x: nat, q: nat)
    requires x < Pow256(q)
    ensures Value(BigEndian(x, q)) == x
  {
    if q > 0 {
      BigEndianValue(x / 256, q - 1);
      assert BigEndian(x, q)[..q - 1] == BigEndian(x / 256, q - 1);
    }
  }

  // ---- Ciphertext and tag ----

  function Masked(c: Perm, iv: seq<byte>, s: seq<byte>): (r: seq<byte>)
    requires 7 <= |iv| <= 13
    ensures |r| == |s|
  {
    seq(|s|, i requires 0 <= i < |s| => s[i] ^ c.enc(CounterBlock(iv, i / BLOCK + 1))[i % BLOCK])
  }

  /** The CBC-MAC of everything, masked by the block for counter 0. */
  function Tag(c: Perm, iv: seq<byte>, add: seq<byte>, tagLen: nat, m: seq<byte>): (r: seq<byte>)
    requires Accepts(|m|, iv, |add|, tagLen)
    ensures |r| == tagLen
  {
    var y := CbcNext(c, Encrypt, Zeros(BLOCK), Formatted(iv, add, tagLen, m), 1 + AddBlocks(|add|) + Blocks(|m|));
    Xor(y, c.enc(CounterBlock(iv, 0)))[..tagLen]
  }

  /** Masking again gives the message back. */
  lemma MaskTwice(c: Perm, iv: seq<byte>, s: seq<byte>)
    requires 7 <= |iv| <= 13
    ensures Masked(c, iv, Masked(c, iv, s)) == s
  {
    var r := Masked(c, iv, s);
    forall i | 0 <= i < |s| ensures Masked(c, iv, r)[i] == s[i] {
      XorByte(s[i], c.enc(CounterBlock(iv, i / BLOCK + 1))[i % BLOCK]);
    }
  }

  // ---- The standard (Appendix A of NIST SP 800-38C) ----

  /** Section A.1: the lengths the standard admits. */
  predicate StandardAccepts(length: nat, iv: seq<byte>, addLen: nat, tagLen: nat) {
    && tagLen in {4, 6, 8, 10, 12, 14, 16}
    && 7 <= |iv| <= 13
    && addLen < 0x1_0000_0000_0000_0000
    && length < Pow256(CounterBytes(iv))
  }

  /** ccm.c accepts these lengths up to 0xFF00 bytes of associated data, and no others. */
  lemma AcceptsExactly(length: nat, iv: seq<byte>, addLen: nat, tagLen: nat)
    ensures Accepts(length, iv, addLen, tagLen) <==> StandardAccepts(length, iv, addLen, tagLen) && addLen <= 0xFF00
  {
  }

  /** Section A.2.2: how the length of associated data is written, in 2, 6 or 10 octets. */
  function StandardLength(a: nat): (r: seq<byte>)
    ensures |r| == if a < 0xFF00 then 2 else if a < 0x1_0000_0000 then 6 else 10
  {
    if a < 0xFF00 then BigEndian(a, 2)
    else if a < 0x1_0000_0000 then [0xFF, 0xFE] + BigEndian(a, 4)
    else [0xFF, 0xFF] + BigEndian(a, 8)
  }

  function StandardAssociated(add: seq<byte>): (r: seq<byte>) {
    if add == [] then [] else ZeroFilled(StandardLength(|add|) + add)
  }

  /** Section A.2.1: the flags in numbers, the nonce, and the length of the payload. */
  ghost predicate IsFirstBlock(b: Block, length: nat, iv: seq<byte>, addLen: nat, tagLen: nat)
    requires 7 <= |iv| <= 13
  {
    var q := 15 - |iv|;
    && b[0] as nat == (if addLen > 0 then 64 else 0) + 8 * ((tagLen - 2) / 2) + (q - 1)
    && b[1..1 + |iv|] == iv
    && Value(b[1 + |iv|..]) == length
  }

  /** Section A.3: the flags, which are q - 1, the nonce, and the counter. */
  ghost predicate IsCounterBlock(b: Block, iv: seq<byte>, i: nat)
    requires 7 <= |iv| <= 13
  {
    var q := 15 - |iv|;
    && b[0] as nat == q - 1
    && b[1..1 + |iv|] == iv
    && Value(b[1 + |iv|..]) == i
  }

  function Plus(x: byte, y: byte): byte {
    x + y
  }

  lemma {:induction false} ByteOfSum(a: nat, b: nat)
    requires a + b < 256
    ensures ByteOf(a + b) == Plus(ByteOf(a), ByteOf(b))
  {
    hide ByteOf, Plus;
    ByteOfNext(b);
    if b > 0 {
      ByteOfNext(a + b);
      ByteOfSum(a, b - 1);
      OneLater(ByteOf(a), ByteOf(b - 1));
    } else {
      NothingAdded(ByteOf(a));
    }
  }

  lemma ByteOfNext(n: nat)
    requires n < 256
    ensures ByteOf(n) == if n == 0 then 0 else Plus(ByteOf(n - 1), 1)
  {
  }

  lemma OneLater(x: byte, y: byte)
    ensures Plus(x, Plus(y, 1)) == Plus(Plus(x, y), 1)
  {
  }

  lemma NothingAdded(x: byte)
    ensures Plus(x, 0) == x
  {
  }

  lemma {:induction false} ByteOfEight(x: nat)
    requires x <= 7
    ensures ByteOf(8 * x) == ByteOf(x) << 3
  {
    if x > 0 {
      ByteOfEight(x - 1);
      ByteOfSum(8 * (x - 1), 8);
      EightBits(ByteOf(x - 1));
    }
  }

  lemma EightBits(b: byte)
    ensures (b + 1) << 3 == (b << 3) + ByteOf(8)
  {
    SmallBytes();
  }

  lemma SmallBytes()
    ensures ByteOf(0) == 0 && ByteOf(8) == 8 && ByteOf(64) == 64
  {
  }

  lemma JoinedFields(h: byte, x: byte, y: byte)
    requires (h == 0 || h == 64) && x <= 7 && y <= 7
    ensures h | (x << 3) | y == h + (x << 3) + y
  {
  }

  lemma FlagsAre(hasAdd: bool, x: nat, y: nat, f: byte)
    requires x <= 7 && y <= 7 && f == (if hasAdd then 0x40 else 0) | (ByteOf(x) << 3) | ByteOf(y)
    ensures f == ByteOf((if hasAdd then 64 else 0) + 8 * x + y)
  {
    var h := if hasAdd then 64 else 0;
    SmallBytes();
    FieldRange(x);
    FieldRange(y);
    ByteOfEight(x);
    hide ByteOf;
    JoinedFields(if hasAdd then 64 else 0, ByteOf(x), ByteOf(y));
    ByteOfSum(h, 8 * x);
    ByteOfSum(h + 8 * x, y);
  }

  lemma FlagsNumber(hasAdd: bool, tagLen: nat, q: nat)
    requires 4 <= tagLen <= 16 && 0 < q <= 8
    ensures Flags(hasAdd, tagLen, q) as nat == (if hasAdd then 64 else 0) + 8 * ((tagLen - 2) / 2) + (q - 1)
  {
    var x, y := (tagLen - 2) / 2, q - 1;
    FlagsAre(hasAdd, x, y, Flags(hasAdd, tagLen, q));
  }

  /** The first block is the one the standard describes, and there is only one such block. */
  lemma FirstBlockStandard(b: Block, length: nat, iv: seq<byte>, addLen: nat, tagLen: nat)
    requires Accepts(length, iv, addLen, tagLen)
    ensures b == FirstBlock(length, iv, addLen, tagLen) <==> IsFirstBlock(b, length, iv, addLen, tagLen)
  {
    var q := CounterBytes(iv);
    FlagsNumber(addLen > 0, tagLen, q);
    BigEndianValue(length, q);
    hide Value, BigEndian, Flags, Pow256;
    BlockOfParts(b, Flags(addLen > 0, tagLen, q), iv, BigEndian(length, q));
  }

  lemma BlockOfParts(b: Block, x: byte, iv: seq<byte>, t: seq<byte>)
    requires |iv| + |t| == 15
    ensures b == [x] + iv + t <==> b[0] as nat == x as nat && b[1..1 + |iv|] == iv && Value(b[1 + |iv|..]) == Value(t)
  {
    hide Value;
    var r := [x] + iv + t;
    assert r[0] == x && r[1..1 + |iv|] == iv && r[1 + |iv|..] == t;
    if b[0] as nat == x as nat && b[1..1 + |iv|] == iv && Value(b[1 + |iv|..]) == Value(t) {
      ByteInjective(b[0], x);
      ValueInjective(b[1 + |iv|..], t);
      assert b == [b[0]] + b[1..1 + |iv|] + b[1 + |iv|..];
    }
  }

  /** And so is every counter block. */
  lemma CounterBlockStandard(b: Block, iv: seq<byte>, i: nat)
    requires 7 <= |iv| <= 13 && i < Pow256(CounterBytes(iv))
    ensures b == CounterBlock(iv, i) <==> IsCounterBlock(b, iv, i)
  {
    var q := CounterBytes(iv);
    BigEndianValue(i, q);
    hide Value, BigEndian, Pow256;
    BlockOfParts(b, ByteOf(q - 1), iv, BigEndian(i, q));
  }

  /** At 0xFF00 bytes ccm.c writes FF 00 where the standard writes FF FE 00 00 FF 00. */
  lemma AtLimit(add: seq<byte>)
    requires |add| == 0xFF00
    ensures Associated(add)[..2] == [0xFF, 0x00] && StandardAssociated(add)[..6] == [0xFF, 0xFE, 0x00, 0x00, 0xFF, 0x00]
    ensures |Associated(add)| == |StandardAssociated(add)|
  {
    BytesOfLimit();
    hide BigEndian;
    FilledStart(BigEndian(0xFF00, 2), add);
    FilledStart(StandardLength(0xFF00), add);
  }

  lemma FilledStart(x: seq<byte>, y: seq<byte>)
    ensures ZeroFilled(x + y)[..|x|] == x
  {
    hide ZeroFilled;
    var s := x + y;
    assert ZeroFilled(s)[..|s|][..|x|] == x;
  }

  /** Of the accepted lengths all but the last one are encoded as the standard says. */
  lemma AssociatedExact(add: seq<byte>)
    requires |add| <= 0xFF00
    ensures Associated(add) == StandardAssociated(add) <==> |add| < 0xFF00
    ensures |Associated(add)| == |StandardAssociated(add)|
  {
    if |add| == 0xFF00 {
      hide Associated, StandardAssociated;
      AtLimit(add);
      var s, t := Associated(add), StandardAssociated(add);
      assert s[..2][1] == 0x00 && t[..6][1] == 0xFE;
    } else {
      assert StandardLength(|add|) == BigEndian(|add|, 2);
    }
  }

  lemma BytesOfLimit()
    ensures BigEndian(0xFF00, 2) == [0xFF, 0x00]
    ensures StandardLength(0xFF00) == [0xFF, 0xFE, 0x00, 0x00, 0xFF, 0x00]
  {
    LimitByte();
    hide ByteOf;
    assert BigEndian(0, 0) == [];
    Digit(0, 0);
    Digit(0, 1);
    Digit(0xFF, 0);
    Digit(0xFF, 2);
    Digit(0xFF00, 1);
    Digit(0xFF00, 3);
  }

  lemma Digit(x: nat, q: nat)
    ensures BigEndian(x, q + 1) == BigEndian(x / 256, q) + [ByteOf(x % 256)]
  {
  }

  lemma LimitByte()
    ensures ByteOf(0xFF) == 0xFF && ByteOf(0) == 0
  {
  }

  /** Section A.2.2 in numbers: the octets in front of a bytes of associated data. */
  ghost predicate IsPrefix(p: seq<byte>, a: nat) {
    if a == 0 then p == []
    else if a < 0xFF00 then |p| == 2 && Value(p) == a
    else if a < 0x1_0000_0000 then |p| == 6 && p[..2] == [0xFF, 0xFE] && Value(p[2..]) == a
    else |p| == 10 && p[..2] == [0xFF, 0xFF] && Value(p[2..]) == a
  }

  /** What ccm.c puts there: two octets for every length. */
  ghost predicate IsShortPrefix(p: seq<byte>, a: nat) {
    if a == 0 then p == [] else |p| == 2 && Value(p) == a
  }

  function RoundedUp(n: nat): (r: nat)
    ensures n <= r < n + BLOCK && r % BLOCK == 0
  {
    (n + BLOCK - 1) / BLOCK * BLOCK
  }

  ghost predicate AllZero(s: seq<byte>) {
    forall i :: 0 <= i < |s| ==> s[i] == 0
  }

  /** r is s with zeros up to a whole number of blocks. */
  ghost predicate IsFilled(r: seq<byte>, s: seq<byte>) {
    |r| == RoundedUp(|s|) && r[..|s|] == s && AllZero(r[|s|..])
  }

  /** f is the first block, p and add filled up, and m filled up. */
  ghost predicate Formats(f: seq<byte>, p: seq<byte>, iv: seq<byte>, add: seq<byte>, tagLen: nat, m: seq<byte>)
    requires 7 <= |iv| <= 13
  {
    var n := BLOCK + RoundedUp(|p + add|);
    && n <= |f|
    && IsFirstBlock(f[..BLOCK], |m|, iv, |add|, tagLen)
    && IsFilled(f[BLOCK..n], p + add)
    && IsFilled(f[n..], m)
  }

  /** Section A.2: the blocks that the standard authenticates. */
  ghost predicate IsFormatting(f: seq<byte>, iv: seq<byte>, add: seq<byte>, tagLen: nat, m: seq<byte>)
    requires 7 <= |iv| <= 13
  {
    exists p :: IsPrefix(p, |add|) && Formats(f, p, iv, add, tagLen, m)
  }

  /** The octets ccm.c writes in front of associated data. */
  function ShortPrefix(a: nat): (p: seq<byte>) {
    if a == 0 then [] else BigEndian(a, 2)
  }

  lemma ShortPrefixIs(p: seq<byte>, a: nat)
    requires a <= 0xFF00
    ensures IsShortPrefix(p, a) <==> p == ShortPrefix(a)
    ensures a < 0xFF00 ==> (IsPrefix(p, a) <==> IsShortPrefix(p, a))
  {
    assert Pow256(2) == 0x1_0000;
    BigEndianValue(a, 2);
    hide Value, BigEndian;
    if |p| == 2 && Value(p) == a {
      ValueInjective(p, BigEndian(a, 2));
    }
  }

  /** What is authenticated, in numbers. */
  lemma FormattedParts(iv: seq<byte>, add: seq<byte>, t: nat, m: seq<byte>)
    requires Accepts(|m|, iv, |add|, t)
    ensures
      var f, k := Formatted(iv, add, t, m), BLOCK + |Associated(add)|;
      && f[0..BLOCK] == FirstBlock(|m|, iv, |add|, t) && k <= |f|
      && f[BLOCK..k] == Associated(add) && f[k..|f|] == ZeroFilled(m)
  {
    hide Associated, ZeroFilled, FirstBlock;
  }

  lemma FilledIs(s: seq<byte>)
    ensures IsFilled(ZeroFilled(s), s)
  {
  }

  lemma FilledOnce(a: seq<byte>, b: seq<byte>, s: seq<byte>)
    requires IsFilled(a, s) && IsFilled(b, s)
    ensures a == b
  {
    assert a == a[..|s|] + a[|s|..] && b == b[..|s|] + b[|s|..];
    assert a[|s|..] == b[|s|..];
  }

  lemma AssociatedIs(add: seq<byte>)
    ensures IsFilled(Associated(add), ShortPrefix(|add|) + add)
  {
    hide BigEndian, ZeroFilled;
    FilledIs(ShortPrefix(|add|) + add);
  }

  lemma FormattedIs(iv: seq<byte>, add: seq<byte>, tagLen: nat, m: seq<byte>)
    requires Accepts(|m|, iv, |add|, tagLen)
    ensures Formats(Formatted(iv, add, tagLen, m), ShortPrefix(|add|), iv, add, tagLen, m)
  {
    hide Associated, ZeroFilled, FirstBlock, Formatted, IsFirstBlock, ShortPrefix;
    var f := Formatted(iv, add, tagLen, m);
    FormattedParts(iv, add, tagLen, m);
    FirstBlockStandard(f[..BLOCK], |m|, iv, |add|, tagLen);
    AssociatedIs(add);
    FilledIs(m);
    FilledLength(Associated(add), ShortPrefix(|add|) + add);
    hide IsFilled;
    assert f[..BLOCK] == f[0..BLOCK];
    assert f[BLOCK + |Associated(add)|..] == f[BLOCK + |Associated(add)|..|f|];
  }

  lemma FilledLength(r: seq<byte>, s: seq<byte>)
    requires IsFilled(r, s)
    ensures |r| == RoundedUp(|s|)
  {
  }

  /** So what is authenticated is what the standard authenticates, exactly below that length. */
  lemma FormattedExact(iv: seq<byte>, add: seq<byte>, tagLen: nat, m: seq<byte>)
    requires Accepts(|m|, iv, |add|, tagLen)
    ensures IsFormatting(Formatted(iv, add, tagLen, m), iv, add, tagLen, m) <==> |add| < 0xFF00
  {
    var f, q := Formatted(iv, add, tagLen, m), ShortPrefix(|add|);
    FormattedIs(iv, add, tagLen, m);
    ShortPrefixIs(q, |add|);
    hide Formats, Formatted, IsPrefix;
    if |add| == 0xFF00 {
      forall p | IsPrefix(p, |add|) ensures !Formats(f, p, iv, add, tagLen, m) {
        OtherPrefix(f, p, q, iv, add, tagLen, m);
      }
    }
  }

  /** The two prefixes at the limit differ in the second octet. */
  lemma OtherPrefix(f: seq<byte>, p: seq<byte>, q: seq<byte>, iv: seq<byte>, add: seq<byte>, tagLen: nat, m: seq<byte>)
    requires 7 <= |iv| <= 13 && |add| == 0xFF00 && IsPrefix(p, |add|) && q == ShortPrefix(|add|)
    requires Formats(f, q, iv, add, tagLen, m)
    ensures !Formats(f, p, iv, add, tagLen, m)
  {
    BytesOfLimit();
    assert p[..2][1] == p[1];
    hide BigEndian, IsFirstBlock, ShortPrefix;
    SecondOctet(f, q, iv, add, tagLen, m);
    if Formats(f, p, iv, add, tagLen, m) {
      SecondOctet(f, p, iv, add, tagLen, m);
    }
  }

  lemma SecondOctet(f: seq<byte>, p: seq<byte>, iv: seq<byte>, add: seq<byte>, tagLen: nat, m: seq<byte>)
    requires 7 <= |iv| <= 13 && |p| >= 2 && Formats(f, p, iv, add, tagLen, m)
    ensures |f| > BLOCK + 1 && f[BLOCK + 1] == p[1]
  {
    hide IsFirstBlock, AllZero;
    var n := BLOCK + RoundedUp(|p + add|);
    assert f[BLOCK..n][1] == f[BLOCK..n][..|p + add|][1] == (p + add)[1];
  }

  // ---- Ciphertext and tag as sections 6.1 and 6.2 define them ----

  /** Step by step: zeros, then the cipher of every block of f combined with what came before. */
  ghost predicate IsMac(c: Perm, f: seq<byte>, y: seq<Block>) {
    && |f| == BLOCK * (|y| - 1) && AllZero(y[0])
    && forall j :: 0 <= j < |y| - 1 ==> y[j + 1] == c.enc(Xor(y[j], Blk(f, j)))
  }

  lemma MacExists(c: Perm, f: seq<byte>) returns (y: seq<Block>)
    requires |f| % BLOCK == 0
    ensures IsMac(c, f, y)
  {
    var n := |f| / BLOCK;
    y := seq(n + 1, i requires 0 <= i <= n => CbcNext(c, Encrypt, Zeros(BLOCK), f, i));
    forall j | 0 <= j < n ensures y[j + 1] == c.enc(Xor(y[j], Blk(f, j))) {
      assert y[j + 1] == CbcOne(c, Encrypt, y[j], Blk(f, j));
      XorSymmetric(y[j], Blk(f, j));
    }
  }

  lemma {:induction false} MacValue(c: Perm, f: seq<byte>, y: seq<Block>, n: nat)
    requires IsMac(c, f, y) && n < |y|
    ensures y[n] == CbcNext(c, Encrypt, Zeros(BLOCK), f, n)
  {
    if n == 0 {
      assert y[0] == Zeros(BLOCK);
    } else {
      MacValue(c, f, y, n - 1);
      hide Xor, Blk;
      assert y[(n - 1) + 1] == c.enc(Xor(y[n - 1], Blk(f, n - 1)));
      XorSymmetric(y[n - 1], Blk(f, n - 1));
    }
  }

  lemma XorSymmetric(a: Block, b: Block)
    ensures Xor(a, b) == Xor(b, a)
  {
    forall i | 0 <= i < BLOCK ensures Xor(a, b)[i] == Xor(b, a)[i] {
      XorByte(a[i], b[i]);
    }
  }

  /** Formatting with a given prefix has one result. */
  lemma FormatsOnce(f: seq<byte>, g: seq<byte>, p: seq<byte>, iv: seq<byte>, add: seq<byte>, tagLen: nat, m: seq<byte>)
    requires Accepts(|m|, iv, |add|, tagLen)
    requires Formats(f, p, iv, add, tagLen, m) && Formats(g, p, iv, add, tagLen, m)
    ensures f == g
  {
    var n := BLOCK + RoundedUp(|p + add|);
    FirstBlockStandard(f[..BLOCK], |m|, iv, |add|, tagLen);
    FirstBlockStandard(g[..BLOCK], |m|, iv, |add|, tagLen);
    hide FirstBlock, IsFirstBlock, IsFilled, RoundedUp;
    FilledOnce(f[BLOCK..n], g[BLOCK..n], p + add);
    FilledOnce(f[n..], g[n..], m);
    ThreePieces(f, n);
    ThreePieces(g, n);
  }

  lemma ThreePieces(f: seq<byte>, n: nat)
    requires BLOCK <= n <= |f|
    ensures f == f[..BLOCK] + f[BLOCK..n] + f[n..]
  {
  }

  /** The tag: the beginning of the last MAC value, masked by the cipher of counter block 0. */
  lemma TagDefinition(c: Perm, iv: seq<byte>, add: seq<byte>, tagLen: nat, m: seq<byte>,
                      p: seq<byte>, f: seq<byte>, y: seq<Block>, ctr: Block)
    requires Accepts(|m|, iv, |add|, tagLen) && IsShortPrefix(p, |add|) && Formats(f, p, iv, add, tagLen, m)
    requires IsMac(c, f, y) && IsCounterBlock(ctr, iv, 0)
    ensures Tag(c, iv, add, tagLen, m) == Xor(y[|y| - 1], c.enc(ctr))[..tagLen]
  {
    hide Formats, Formatted, IsMac, Xor, CounterBlock, CbcNext, Zeros, IsCounterBlock, ShortPrefix, IsShortPrefix;
    ShortPrefixIs(p, |add|);
    FormattedIs(iv, add, tagLen, m);
    FormatsOnce(f, Formatted(iv, add, tagLen, m), p, iv, add, tagLen, m);
    CounterBlockStandard(ctr, iv, 0);
    MacLength(c, f, y);
    MacValue(c, f, y, |y| - 1);
  }

  lemma MacLength(c: Perm, f: seq<byte>, y: seq<Block>)
    requires IsMac(c, f, y)
    ensures |f| == BLOCK * (|y| - 1)
  {
  }

  /** The ciphertext, and the message again: byte r of block j is masked by the cipher of counter block j + 1. */
  lemma MaskedDefinition(c: Perm, iv: seq<byte>, s: seq<byte>, j: nat, r: nat, ctr: Block)
    requires 7 <= |iv| <= 13 && r < BLOCK && BLOCK * j + r < |s| && IsCounterBlock(ctr, iv, j + 1)
    ensures Masked(c, iv, s)[BLOCK * j + r] == s[BLOCK * j + r] ^ c.enc(ctr)[r]
  {
    CounterFits(iv, j + 1, ctr);
    hide CounterBlock, Pow256, IsCounterBlock;
    CounterBlockStandard(ctr, iv, j + 1);
    InBlock(j, r);
  }

  lemma CounterFits(iv: seq<byte>, i: nat, ctr: Block)
    requires 7 <= |iv| <= 13 && IsCounterBlock(ctr, iv, i)
    ensures i < Pow256(CounterBytes(iv))
  {
    hide Value, Pow256;
    IncrementValue(ctr[1 + |iv|..]);
  }

  lemma InBlock(j: nat, r: nat)
    requires r < BLOCK
    ensures (BLOCK * j + r) / BLOCK == j && (BLOCK * j + r) % BLOCK == r
  {
  }

  // ---- Distinct inputs to the block cipher ----

  lemma {:induction false} BigEndianInjective(x: nat, y: nat, q: nat)
    requires x < Pow256(q) && y < Pow256(q)
    requires BigEndian(x, q) == BigEndian(y, q)
    ensures x == y
  {
    if q > 0 {
      var a, b := BigEndian(x, q), BigEndian(y, q);
      assert a[q - 1] == ByteOf(x % 256) && b[q - 1] == ByteOf(y % 256);
      assert a[..q - 1] == BigEndian(x / 256, q - 1) && b[..q - 1] == BigEndian(y / 256, q - 1);
      BigEndianInjective(x / 256, y / 256, q - 1);
    }
  }

  /**
    * The length check keeps every counter block of a message different from
    * every other and from the one that masks the tag.
    */
  lemma CounterBlocksDistinct(length: nat, iv: seq<byte>, addLen: nat, tagLen: nat, i: nat, j: nat)
    requires Accepts(length, iv, addLen, tagLen)
    requires i < j <= Blocks(length)
    ensures CounterBlock(iv, i) != CounterBlock(iv, j)
  {
    var q := CounterBytes(iv);
    if CounterBlock(iv, i) == CounterBlock(iv, j) {
      assert CounterBlock(iv, i)[1 + |iv|..] == BigEndian(i, q);
      assert CounterBlock(iv, j)[1 + |iv|..] == BigEndian(j, q);
      BigEndianInjective(i, j, q);
    }
  }

  /** The three fields of the flags byte can be read back. */
  lemma FlagsFields(hasAdd: bool, t: byte, q: byte)
    requires 1 <= t <= 7 && q <= 7
    ensures
      var f := (if hasAdd then 0x40 else 0) | (t << 3) | q;
      && f & 7 == q
      && (f >> 3) & 7 == t
      && (f & 0x40 != 0 <==> hasAdd)
  {
  }

  lemma FlagsInjective(hasAdd: bool, t: nat, q: nat, hasAdd': bool, t': nat, q': nat)
    requires 4 <= t <= 16 && t % 2 == 0 && 0 < q <= 8
    requires 4 <= t' <= 16 && t' % 2 == 0 && 0 < q' <= 8
    requires Flags(hasAdd, t, q) == Flags(hasAdd', t', q')
    ensures hasAdd == hasAdd' && t == t' && q == q'
  {
    var x, x', y, y' := (t - 2) / 2, (t' - 2) / 2, q - 1, q' - 1;
    assert 1 <= x <= 7 && 1 <= x' <= 7;
    FieldRange(x);
    FieldRange(x');
    FieldRange(y);
    FieldRange(y');
    FlagsFields(hasAdd, ByteOf(x), ByteOf(y));
    FlagsFields(hasAdd', ByteOf(x'), ByteOf(y'));
    assert ByteOf(x) == ByteOf(x') && ByteOf(y) == ByteOf(y');
  }

  lemma FieldRange(n: nat)
    requires n <= 7
    ensures ByteOf(n) <= 7
    ensures n >= 1 ==> ByteOf(n) >= 1
  {
  }

  lemma FirstBlockInjective(n: nat, iv: seq<byte>, a: nat, t: nat, n': nat, iv': seq<byte>, a': nat, t': nat)
    requires Accepts(n, iv, a, t) && Accepts(n', iv', a', t')
    requires FirstBlock(n, iv, a, t) == FirstBlock(n', iv', a', t')
    ensures iv == iv' && n == n' && t == t' && (a > 0 <==> a' > 0)
  {
    var q, q' := CounterBytes(iv), CounterBytes(iv');
    var b, b' := FirstBlock(n, iv, a, t), FirstBlock(n', iv', a', t');
    hide Flags, BigEndian, Pow256;
    assert b[0] == Flags(a > 0, t, q) && b'[0] == Flags(a' > 0, t', q');
    FlagsInjective(a > 0, t, q, a' > 0, t', q');
    assert b[1..1 + |iv|] == iv && b'[1..1 + |iv|] == iv';
    assert b[1 + |iv|..] == BigEndian(n, q) && b'[1 + |iv|..] == BigEndian(n', q);
    BigEndianInjective(n, n', q);
  }

  /** The counter blocks do not meet the first block of the MAC either. */
  lemma FirstBlockIsNoCounter(n: nat, iv: seq<byte>, addLen: nat, tagLen: nat, i: nat)
    requires Accepts(n, iv, addLen, tagLen)
    ensures FirstBlock(n, iv, addLen, tagLen) != CounterBlock(iv, i)
  {
    var q := CounterBytes(iv);
    FieldRange((tagLen - 2) / 2);
    FieldRange(q - 1);
    FlagsFields(addLen > 0, ByteOf((tagLen - 2) / 2), ByteOf(q - 1));
    CounterFlags(ByteOf(q - 1));
    assert FirstBlock(n, iv, addLen, tagLen)[0] == Flags(addLen > 0, tagLen, q);
    assert CounterBlock(iv, i)[0] == ByteOf(q - 1);
  }

  lemma CounterFlags(q: byte)
    requires q <= 7
    ensures (q >> 3) & 7 == 0
  {
  }

  lemma AddLenInjective(a: seq<byte>, b: seq<byte>)
    requires 0 < |a| <= 0xFF00 && 0 < |b| <= 0xFF00
    requires |Associated(a)| >= 2 && |Associated(b)| >= 2 && Associated(a)[..2] == Associated(b)[..2]
    ensures |a| == |b|
  {
    var x, y := BigEndian(|a|, 2) + a, BigEndian(|b|, 2) + b;
    assert Associated(a)[..2] == Associated(a)[..|x|][..2] == BigEndian(|a|, 2);
    assert Associated(b)[..2] == Associated(b)[..|y|][..2] == BigEndian(|b|, 2);
    assert Pow256(2) == 0x1_0000;
    BigEndianInjective(|a|, |b|, 2);
  }

  lemma AddInjective(a: seq<byte>, b: seq<byte>)
    requires |a| == |b| && Associated(a) == Associated(b)
    ensures a == b
  {
    if a != [] {
      var x, y := BigEndian(|a|, 2) + a, BigEndian(|b|, 2) + b;
      assert Associated(a)[..|x|] == x && Associated(b)[..|y|] == y && |x| == |y|;
      assert x[2..] == a && y[2..] == b;
    }
  }

  /**
    * The formatting is prefix-free (section A.2): what is authenticated for one
    * nonce, associated data, tag length and message never begins what is
    * authenticated for another.
    */
  lemma FormatPrefixFree(iv: seq<byte>, add: seq<byte>, t: nat, m: seq<byte>,
                         iv': seq<byte>, add': seq<byte>, t': nat, m': seq<byte>)
    requires Accepts(|m|, iv, |add|, t) && Accepts(|m'|, iv', |add'|, t')
    requires Formatted(iv, add, t, m) <= Formatted(iv', add', t', m')
    ensures iv == iv' && add == add' && t == t' && m == m'
  {
    hide Associated, ZeroFilled, FirstBlock, Formatted;
    var f, f' := Formatted(iv, add, t, m), Formatted(iv', add', t', m');
    FormattedParts(iv, add, t, m);
    FormattedParts(iv', add', t', m');
    PrefixSlice(f, f', 0, BLOCK);
    FirstBlockInjective(|m|, iv, |add|, t, |m'|, iv', |add'|, t');
    if add != [] {
      PrefixSlice(f, f', BLOCK, BLOCK + 2);
      assert Associated(add)[..2] == f[BLOCK..BLOCK + 2];
      assert Associated(add')[..2] == f'[BLOCK..BLOCK + 2];
      AddLenInjective(add, add');
    }
    var k := BLOCK + |Associated(add)|;
    PrefixSlice(f, f', BLOCK, k);
    AddInjective(add, add');
    PrefixSlice(f, f', k, |f|);
    assert ZeroFilled(m)[..|m|] == ZeroFilled(m')[..|m'|];
  }

  lemma PrefixSlice(f: seq<byte>, g: seq<byte>, i: nat, j: nat)
    requires f <= g && i <= j <= |f|
    ensures f[i..j] == g[i..j]
  {
    assert f == g[..|f|];
  }
}
