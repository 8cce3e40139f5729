/** ccm.c as the source has it: blocks b, y and ctr rewritten step by step. */
module Ccm {
  import opened BlockCipher
  import opened Modes
  import opened StreamModes
  import opened CcmSpec
  import StreamLoops

  datatype Error = None | BadInput | AuthFailed

  // ---- Numbers in big-endian bytes ----

  /** x after i shifts by a byte. */
  function Shifted(x: nat, i: nat): nat {
    if i == 0 then x else Shifted(x / 256, i - 1)
  }

  lemma {:induction false} ShiftedNext(x: nat, i: nat)
    ensures Shifted(x, i + 1) == Shifted(x, i) / 256
  {
    if i > 0 {
      ShiftedNext(x / 256, i - 1);
    }
  }

  lemma {:induction false} BigEndianFront(x: nat, i: nat)
    ensures BigEndian(x, i + 1) == [ByteOf(Shifted(x, i) % 256)] + BigEndian(x, i)
  {
    if i == 0 {
      assert BigEndian(x / 256, 0) == [];
    } else {
      BigEndianFront(x / 256, i - 1);
    }
  }

  lemma {:induction false} ShiftedOut(x: nat, q: nat)
    ensures Shifted(x, q) == 0 <==> x < Pow256(q)
  {
    if q > 0 {
      ShiftedOut(x / 256, q - 1);
    }
  }

  lemma BigEndianNext(x: nat, q: nat)
    requires x + 1 < Pow256(q)
    ensures Increment(BigEndian(x, q)) == BigEndian(x + 1, q)
  {
    hide Value, BigEndian, Increment, Pow256;
    BigEndianValue(x, q);
    BigEndianValue(x + 1, q);
    IncrementValue(BigEndian(x, q));
    ValueInjective(Increment(BigEndian(x, q)), BigEndian(x + 1, q));
  }

  lemma {:induction false} BigEndianZero(q: nat)
    ensures BigEndian(0, q) == Zeros(q)
  {
    if q > 0 {
      BigEndianZero(q - 1);
      assert Zeros(q - 1) + [0] == Zeros(q);
    }
  }

  lemma {:induction false} PowersGrow(q: nat)
    requires q >= 2
    ensures Pow256(q) >= 0x1_0000
  {
    if q > 2 {
      PowersGrow(q - 1);
    } else {
      assert Pow256(1) == 256;
    }
  }

  /** The counter never carries out of its q bytes while a message is processed. */
  lemma NextCounterBlock(length: nat, iv: seq<byte>, i: nat)
    requires 7 <= |iv| <= 13 && length < Pow256(CounterBytes(iv)) && i <= Blocks(length)
    ensures
      var b := CounterBlock(iv, i);
      b[..1 + |iv|] + Increment(b[1 + |iv|..]) == CounterBlock(iv, i + 1)
  {
    var q := CounterBytes(iv);
    PowersGrow(q);
    BigEndianNext(i, q);
    var b := CounterBlock(iv, i);
    assert b[1 + |iv|..] == BigEndian(i, q);
  }

  // ---- The two macros ----

  /** memset(b, 0, 16) and memcpy(b, piece, |piece|). */
  method LoadBlock(b: array<byte>, piece: seq<byte>)
    requires b.Length == BLOCK && |piece| <= BLOCK
    modifies b
    ensures b[..] == piece + Zeros(BLOCK - |piece|)
  {
    forall k | 0 <= k < BLOCK {
      b[k] := 0;
    }
    Put(b, 0, piece);
    assert b[..] == piece + Zeros(BLOCK - |piece|);
  }

  /** UPDATE_CBC_MAC. */
  method UpdateCbcMac(c: Perm, y: array<byte>, b: array<byte>, ghost prev: Block, ghost blk: Block)
    requires y.Length == BLOCK == b.Length && y != b
    requires prev == y[..] && blk == b[..]
    modifies y
    ensures y[..] == CbcOne(c, Encrypt, prev, blk)
  {
    assert y[0..0 + BLOCK] == prev;
    XorInto(y, 0, y, 0, b, BLOCK, prev, Xor(prev, blk), prev);
    XorSymmetric(prev, blk);
    SplicedWhole(prev, Xor(blk, prev));
    Put(y, 0, c.enc(y[..]));
    SplicedWhole(Xor(blk, prev), c.enc(Xor(blk, prev)));
  }

  /** CTR_CRYPT: len bytes of src masked into dst; b is used for temporary storage. */
  method CtrCrypt(c: Perm, ctr: array<byte>, b: array<byte>, dst: array<byte>, d: nat,
                  src: array<byte>, s: nat, len: nat, ghost key: Block, ghost piece: seq<byte>, ghost before: seq<byte>)
    requires ctr.Length == BLOCK == b.Length && ctr != b
    requires b != dst && b != src && ctr != dst && len <= BLOCK
    requires d + len <= dst.Length && s + len <= src.Length && (dst == src ==> d == s)
    requires key == c.enc(ctr[..]) && piece == src[s..s + len] && before == dst[..]
    modifies b, dst
    ensures dst[..] == Spliced(before, d, Xor(piece, key))
    ensures SameFrom(src[..], old(src[..]), s + len)
  {
    ghost var all, was := src[..], b[..];
    assert SameFrom(all, all, s + len);
    SplicedTail(before, d, Xor(piece, key));
    SplicedWhole(was, key);
    hide Spliced, Xor, SameFrom;
    Put(b, 0, c.enc(ctr[..]));
    XorInto(src, s, dst, d, b, len, piece, Xor(piece, key), before);
  }

  // ---- The first block ----

  /** The length written backwards from the end of b; false when it does not fit. */
  method WriteLength(b: array<byte>, length: nat, q: nat) returns (ok: bool)
    requires b.Length == BLOCK && q <= BLOCK
    modifies b
    ensures ok <==> length < Pow256(q)
    ensures b[..] == old(b[..BLOCK - q]) + BigEndian(length, q)
  {
    ghost var front := b[..BLOCK - q];
    hide BigEndian, Shifted, Pow256;
    BigEndianNone(length);
    var i, left := 0, length;
    while i < q
      invariant i <= q && left == Shifted(length, i)
      invariant b[..BLOCK - q] == front
      invariant b[BLOCK - i..] == BigEndian(length, i)
    {
      left := WriteDigit(b, length, q, i, left, front);
      i := i + 1;
    }
    ShiftedOut(length, q);
    ok := left == 0;
    assert b[..] == b[..BLOCK - q] + b[BLOCK - q..];
  }

  /** One turn: the low byte of what is left, then a shift. */
  method WriteDigit(b: array<byte>, ghost length: nat, q: nat, i: nat, left: nat, ghost front: seq<byte>)
    returns (next: nat)
    requires b.Length == BLOCK && i < q <= BLOCK && left == Shifted(length, i)
    requires b[..BLOCK - q] == front && b[BLOCK - i..] == BigEndian(length, i)
    modifies b
    ensures next == Shifted(length, i + 1)
    ensures b[..BLOCK - q] == front && b[BLOCK - (i + 1)..] == BigEndian(length, i + 1)
  {
    BigEndianFront(length, i);
    ShiftedNext(length, i);
    hide BigEndian, Shifted;
    ghost var tail := b[BLOCK - i..];
    b[15 - i] := ByteOf(left % 256);
    assert b[BLOCK - (i + 1)..] == [ByteOf(left % 256)] + tail;
    next := left / 256;
  }

  lemma BigEndianNone(x: nat)
    ensures BigEndian(x, 0) == [] && Shifted(x, 0) == x
  {
  }

  method MakeFirstBlock(b: array<byte>, length: nat, iv: seq<byte>, addLen: nat, tagLen: nat) returns (ok: bool)
    requires b.Length == BLOCK
    requires 4 <= tagLen <= 16 && tagLen % 2 == 0 && 7 <= |iv| <= 13 && addLen <= 0xFF00
    modifies b
    ensures ok <==> Accepts(length, iv, addLen, tagLen)
    ensures ok ==> b[..] == FirstBlock(length, iv, addLen, tagLen)
  {
    var q := 15 - |iv|;
    hide Flags, BigEndian, Spliced;
    SetFlags(b, addLen, tagLen, q);
    Put(b, 1, iv);
    assert b[..BLOCK - q] == [Flags(addLen > 0, tagLen, q)] + iv by {
      assert b[..BLOCK - q] == b[..1] + b[1..1 + |iv|];
    }
    ok := WriteLength(b, length, q);
  }

  method SetFlags(b: array<byte>, addLen: nat, tagLen: nat, q: nat)
    requires b.Length == BLOCK && 4 <= tagLen <= 16 && 0 < q <= 8
    modifies b
    ensures b[0] == Flags(addLen > 0, tagLen, q)
  {
    b[0] := 0;
    b[0] := b[0] | (if addLen > 0 then 0x40 else 0);
    b[0] := b[0] | (ByteOf((tagLen - 2) / 2) << 3);
    b[0] := b[0] | ByteOf(q - 1);
    OrWithZero(if addLen > 0 then 0x40 else 0);
  }

  lemma OrWithZero(x: byte)
    ensures 0 | x == x
  {
  }

  // ---- The associated data ----

  /** Block n of s filled up with zeros. */
  lemma FilledBlock(s: seq<byte>, n: nat, use: nat)
    requires BLOCK * n < |s| && use == (if |s| - BLOCK * n > BLOCK then BLOCK else |s| - BLOCK * n)
    ensures n < Blocks(|s|)
    ensures Blk(ZeroFilled(s), n) == s[BLOCK * n..BLOCK * n + use] + Zeros(BLOCK - use)
  {
    var f := ZeroFilled(s);
    forall i | 0 <= i < BLOCK ensures Blk(f, n)[i] == (s[BLOCK * n..BLOCK * n + use] + Zeros(BLOCK - use))[i] {
      assert f[BLOCK * n + i] == if BLOCK * n + i < |s| then s[BLOCK * n + i] else 0;
    }
  }

  /** The first block of associated data: its length in two bytes, then its beginning. */
  method LoadAddHead(b: array<byte>, add: seq<byte>, use: nat)
    requires b.Length == BLOCK && use <= |add| <= 0xFF00 && use <= BLOCK - 2
    modifies b
    ensures b[..] == BigEndian(|add|, 2) + add[..use] + Zeros(BLOCK - 2 - use)
  {
    TwoBytes(|add|);
    LoadBlock(b, []);
    b[0] := ByteOf(|add| / 256);
    b[1] := ByteOf(|add| % 256);
    ghost var head := BigEndian(|add|, 2);
    hide BigEndian, Spliced;
    ghost var was := b[..];
    assert was == head + Zeros(BLOCK - 2);
    Put(b, 2, add[..use]);
    assert was[2 + use..] == Zeros(BLOCK - 2 - use);
    assert b[..] == b[..2] + b[2..2 + use] + b[2 + use..];
  }

  lemma TwoBytes(n: nat)
    requires n <= 0xFF00
    ensures BigEndian(n, 2) == [ByteOf(n / 256), ByteOf(n % 256)]
  {
    assert BigEndian(n / 256, 1) == BigEndian(n / 256 / 256, 0) + [ByteOf(n / 256 % 256)];
    assert n / 256 % 256 == n / 256;
  }

  lemma AddPiece(add: seq<byte>, n: nat, use: nat)
    requires 0 < |add| <= 0xFF00 && 1 <= n && BLOCK * n - 2 < |add|
    requires use == if |add| - (BLOCK * n - 2) > BLOCK then BLOCK else |add| - (BLOCK * n - 2)
    ensures n < AddBlocks(|add|)
    ensures Blk(Associated(add), n) == add[BLOCK * n - 2..BLOCK * n - 2 + use] + Zeros(BLOCK - use)
  {
    var x := BigEndian(|add|, 2) + add;
    FilledBlock(x, n, use);
    hide BigEndian;
    BehindHead(BigEndian(|add|, 2), add, BLOCK * n, use);
  }

  lemma BehindHead(h: seq<byte>, a: seq<byte>, i: nat, n: nat)
    requires |h| <= i && i + n <= |h| + |a|
    ensures (h + a)[i..i + n] == a[i - |h|..i - |h| + n]
  {
  }

  lemma HeadOf(h: seq<byte>, a: seq<byte>, use: nat)
    requires use <= |a|
    ensures (h + a)[0..|h| + use] == h + a[..use]
  {
  }

  lemma AddHead(add: seq<byte>, use: nat)
    requires 0 < |add| <= 0xFF00 && use == if |add| < BLOCK - 2 then |add| else BLOCK - 2
    ensures AddBlocks(|add|) > 0
    ensures Blk(Associated(add), 0) == BigEndian(|add|, 2) + add[..use] + Zeros(BLOCK - 2 - use)
  {
    var x := BigEndian(|add|, 2) + add;
    hide BigEndian, ZeroFilled, Zeros, Blk, Blocks;
    FilledBlock(x, 0, 2 + use);
    HeadOf(BigEndian(|add|, 2), add, use);
    assert x[BLOCK * 0..BLOCK * 0 + (2 + use)] == x[0..2 + use];
  }

  /** The first block of associated data into the CBC-MAC. */
  method MacAddHead(c: Perm, y: array<byte>, b: array<byte>, add: seq<byte>, ghost y0: Block) returns (use: nat)
    requires y.Length == BLOCK == b.Length && y != b && y0 == y[..] && 0 < |add| <= 0xFF00
    modifies y, b
    ensures use == if |add| < BLOCK - 2 then |add| else BLOCK - 2
    ensures AddBlocks(|add|) > 0 && y[..] == CbcNext(c, Encrypt, y0, Associated(add), 1)
  {
    hide Associated, BigEndian, Blk, CbcOne, CbcNext, AddBlocks;
    use := if |add| < BLOCK - 2 then |add| else BLOCK - 2;
    AddHead(add, use);
    LoadAddHead(b, add, use);
    UpdateCbcMac(c, y, b, y0, Blk(Associated(add), 0));
    MacNext(c, y0, Associated(add), 0);
  }

  /** A further block of associated data into the CBC-MAC. */
  method MacAddBlock(c: Perm, y: array<byte>, b: array<byte>, add: seq<byte>, k: nat, ghost n: nat, ghost y0: Block)
    returns (use: nat)
    requires y.Length == BLOCK == b.Length && y != b && 0 < |add| <= 0xFF00
    requires 1 <= n <= AddBlocks(|add|) && k < |add| && AddAt(|add|, n, k)
    requires y[..] == CbcNext(c, Encrypt, y0, Associated(add), n)
    modifies y, b
    ensures k + use <= |add| && use > 0 && AddAt(|add|, n + 1, k + use)
    ensures n < AddBlocks(|add|) && y[..] == CbcNext(c, Encrypt, y0, Associated(add), n + 1)
  {
    hide Associated, Blk, CbcOne, CbcNext, AddBlocks;
    use := if |add| - k > BLOCK then BLOCK else |add| - k;
    AddPiece(add, n, use);
    LoadBlock(b, add[k..k + use]);
    MacNext(c, y0, Associated(add), n);
    UpdateCbcMac(c, y, b, y[..], Blk(Associated(add), n));
  }

  /** The additional data into the CBC-MAC, padded to a block boundary. */
  method MacAssociated(c: Perm, y: array<byte>, b: array<byte>, add: seq<byte>, ghost y0: Block)
    requires y.Length == BLOCK == b.Length && y != b && y0 == y[..] && 0 < |add| <= 0xFF00
    modifies y, b
    ensures y[..] == CbcNext(c, Encrypt, y0, Associated(add), AddBlocks(|add|))
  {
    AddAtEnds(|add|, 1);
    hide Associated, CbcNext, AddBlocks, AddAt;
    var k := MacAddHead(c, y, b, add, y0);
    ghost var n := 1;
    while k < |add|
      invariant k <= |add| && 1 <= n <= AddBlocks(|add|) && AddAt(|add|, n, k)
      invariant y[..] == CbcNext(c, Encrypt, y0, Associated(add), n)
    {
      var use := MacAddBlock(c, y, b, add, k, n, y0);
      k, n := k + use, n + 1;
    }
    AddAtEnds(|add|, n);
  }

  /** k bytes of additional data have gone into the first n blocks. */
  ghost predicate AddAt(addLen: nat, n: nat, k: nat) {
    k == if BLOCK * n - 2 < addLen then BLOCK * n - 2 else addLen
  }

  lemma AddAtEnds(addLen: nat, n: nat)
    ensures AddAt(addLen, 1, if addLen < BLOCK - 2 then addLen else BLOCK - 2)
    ensures addLen > 0 && n <= AddBlocks(addLen) && AddAt(addLen, n, addLen) ==> n == AddBlocks(addLen)
  {
  }

  lemma MacNext(c: Perm, y: Block, s: seq<byte>, n: nat)
    requires BLOCK * n + BLOCK <= |s|
    ensures n == 0 ==> CbcNext(c, Encrypt, y, s, n) == y
    ensures CbcNext(c, Encrypt, y, s, n + 1) == CbcOne(c, Encrypt, CbcNext(c, Encrypt, y, s, n), Blk(s, n))
  {
  }

  // ---- The message ----

  datatype Mode = EncryptMode | DecryptMode

  function Min(a: nat, b: nat): nat {
    if a < b then a else b
  }

  /** The plaintext, which is what the MAC runs over either way. */
  function Plain(c: Perm, mode: Mode, iv: seq<byte>, s: seq<byte>): (r: seq<byte>)
    requires 7 <= |iv| <= 13
    ensures |r| == |s|
  {
    if mode == EncryptMode then s else Masked(c, iv, s)
  }

  lemma MaskedAt(c: Perm, iv: seq<byte>, s: seq<byte>, n: nat, i: nat)
    requires 7 <= |iv| <= 13 && i < BLOCK && BLOCK * n + i < |s|
    ensures Masked(c, iv, s)[BLOCK * n + i] == s[BLOCK * n + i] ^ c.enc(CounterBlock(iv, n + 1))[i]
  {
    hide CounterBlock;
    InBlock(n, i);
  }

  lemma MaskedPiece(c: Perm, iv: seq<byte>, s: seq<byte>, n: nat, use: nat)
    requires 7 <= |iv| <= 13 && use <= BLOCK && BLOCK * n + use <= |s|
    ensures
      var k := BLOCK * n;
      var x := Xor(s[k..k + use], c.enc(CounterBlock(iv, n + 1)));
      && Masked(c, iv, s)[k..k + use] == x
      && Masked(c, iv, s)[..k + use] == Masked(c, iv, s)[..k] + x
  {
    var k := BLOCK * n;
    var r := Masked(c, iv, s);
    var x := Xor(s[k..k + use], c.enc(CounterBlock(iv, n + 1)));
    hide Masked, CounterBlock, Xor;
    forall i | 0 <= i < use ensures r[k..k + use][i] == x[i] {
      MaskedAt(c, iv, s, n, i);
    }
    assert r[..k + use] == r[..k] + r[k..k + use];
  }

  /** n blocks of the message are processed. */
  ghost predicate Crypted(c: Perm, mode: Mode, iv: seq<byte>, y0: Block, s: seq<byte>, n: nat,
                          before: seq<byte>, off: nat, out: seq<byte>, y: seq<byte>, ctr: seq<byte>)
    requires 7 <= |iv| <= 13 && n <= Blocks(|s|) && off + |s| <= |before|
  {
    && out == Spliced(before, off, Masked(c, iv, s)[..Min(BLOCK * n, |s|)])
    && y == CbcNext(c, Encrypt, y0, ZeroFilled(Plain(c, mode, iv, s)), n)
    && ctr == CounterBlock(iv, n + 1)
  }

  lemma CryptedNone(c: Perm, mode: Mode, iv: seq<byte>, y0: Block, s: seq<byte>, before: seq<byte>, off: nat)
    requires 7 <= |iv| <= 13 && off + |s| <= |before|
    ensures Crypted(c, mode, iv, y0, s, 0, before, off, before, y0, CounterBlock(iv, 1))
  {
    assert Masked(c, iv, s)[..0] == [];
  }

  lemma CryptedNext(c: Perm, mode: Mode, iv: seq<byte>, y0: Block, s: seq<byte>, n: nat, use: nat,
                    before: seq<byte>, off: nat, out: seq<byte>, y: Block)
    requires 7 <= |iv| <= 13 && |s| < Pow256(CounterBytes(iv))
    requires off + |s| <= |before| == |out| && BLOCK * n < |s| && n < Blocks(|s|)
    requires use == Min(BLOCK, |s| - BLOCK * n)
    requires Crypted(c, mode, iv, y0, s, n, before, off, out, y, CounterBlock(iv, n + 1))
    ensures
      var k := BLOCK * n;
      var x := Xor(s[k..k + use], c.enc(CounterBlock(iv, n + 1)));
      var p := if mode == EncryptMode then s[k..k + use] else x;
      Crypted(c, mode, iv, y0, s, n + 1, before, off, Spliced(out, off + k, x),
              CbcOne(c, Encrypt, y, p + Zeros(BLOCK - use)), CounterBlock(iv, n + 2))
  {
    hide Xor, Spliced, Masked, CounterBlock, Blocks, CbcOne, CbcNext;
    var k := BLOCK * n;
    var x := Xor(s[k..k + use], c.enc(CounterBlock(iv, n + 1)));
    MaskedPiece(c, iv, s, n, use);
    SplicedTwice(before, off, Masked(c, iv, s)[..k], x);
    FilledBlock(Plain(c, mode, iv, s), n, use);
    MacNext(c, y0, ZeroFilled(Plain(c, mode, iv, s)), n);
    assert Min(BLOCK * (n + 1), |s|) == k + use;
  }

  /** One turn of the message loop. */
  method CryptTurn(c: Perm, mode: Mode, iv: seq<byte>, y: array<byte>, b: array<byte>, ctr: array<byte>,
                   input: array<byte>, i: nat, output: array<byte>, o: nat, use: nat,
                   ghost key: Block, ghost piece: seq<byte>, ghost prev: Block, ghost cb: Block, ghost before: seq<byte>)
    requires y.Length == BLOCK == b.Length == ctr.Length && y != b && b != ctr && y != ctr
    requires input != y && input != b && input != ctr && output != y && output != b && output != ctr && |iv| <= 13
    requires use <= BLOCK && i + use <= input.Length && o + use <= output.Length
    requires input == output ==> i == o
    requires cb == ctr[..] && key == c.enc(cb) && piece == input[i..i + use] && prev == y[..] && before == output[..]
    modifies y, b, ctr, output
    ensures
      var x := Xor(piece, key);
      var p := if mode == EncryptMode then piece else x;
      && output[..] == Spliced(before, o, x)
      && y[..] == CbcOne(c, Encrypt, prev, p + Zeros(BLOCK - use))
    ensures ctr[..] == cb[..1 + |iv|] + Increment(cb[1 + |iv|..])
    ensures SameFrom(input[..], old(input[..]), i + use)
  {
    hide Xor, Spliced, CbcOne, SameFrom, Increment;
    if mode == EncryptMode {
      LoadBlock(b, input[i..i + use]);
      UpdateCbcMac(c, y, b, prev, b[..]);
    }
    CtrCrypt(c, ctr, b, output, o, input, i, use, key, piece, before);
    if mode == DecryptMode {
      assert output[o..o + use] == Xor(piece, key);
      LoadBlock(b, output[o..o + use]);
      UpdateCbcMac(c, y, b, prev, b[..]);
    }
    StreamLoops.IncrementCounter(ctr, 1 + |iv|);
  }

  predicate Apart(y: array<byte>, b: array<byte>, ctr: array<byte>, input: array<byte>, output: array<byte>) {
    && y.Length == BLOCK == b.Length == ctr.Length && y != b && b != ctr && y != ctr
    && input != y && input != b && input != ctr && output != y && output != b && output != ctr
  }

  /** One turn of the message loop, in terms of what has been processed. */
  method CryptStep(c: Perm, mode: Mode, iv: seq<byte>, y: array<byte>, b: array<byte>, ctr: array<byte>,
                   input: array<byte>, inOff: nat, output: array<byte>, outOff: nat, k: nat, use: nat,
                   ghost n: nat, ghost y0: Block, ghost s: seq<byte>, ghost all: seq<byte>, ghost before: seq<byte>)
    requires Apart(y, b, ctr, input, output)
    requires 7 <= |iv| <= 13 && |s| < Pow256(CounterBytes(iv))
    requires input == output ==> inOff == outOff
    requires |all| == input.Length && |before| == output.Length && outOff + |s| <= output.Length
    requires Holds(all, inOff, s) && inOff + |s| <= input.Length
    requires k == BLOCK * n < |s| && n < Blocks(|s|) && use == Min(BLOCK, |s| - k)
    requires Crypted(c, mode, iv, y0, s, n, before, outOff, output[..], y[..], ctr[..])
    requires ctr[..] == CounterBlock(iv, n + 1)
    requires SameFrom(input[..], all, inOff + k)
    modifies y, b, ctr, output
    ensures Crypted(c, mode, iv, y0, s, n + 1, before, outOff, output[..], y[..], ctr[..])
    ensures ctr[..] == CounterBlock(iv, n + 2)
    ensures SameFrom(input[..], all, inOff + k + use)
  {
    hide Crypted, Holds, SameFrom, Xor, Spliced, CbcOne, CounterBlock, Blocks, Pow256, Increment;
    ghost var now, out, prev, cb := input[..], output[..], y[..], CounterBlock(iv, n + 1);
    NextPiece(all, now, inOff, s, k, use);
    CryptedNext(c, mode, iv, y0, s, n, use, before, outOff, out, prev);
    NextCounterBlock(|s|, iv, n + 1);
    CryptTurn(c, mode, iv, y, b, ctr, input, inOff + k, output, outOff + k, use,
              c.enc(cb), s[k..k + use], prev, cb, out);
    SameFromTrans(input[..], now, all, inOff + k + use);
  }

  /** left bytes remain after n blocks. */
  ghost predicate LeftAfter(length: nat, n: nat, left: nat) {
    left == length - Min(BLOCK * n, length)
  }

  lemma LeftAtEnds(length: nat, n: nat)
    ensures LeftAfter(length, 0, length)
    ensures n <= Blocks(length) && LeftAfter(length, n, 0) ==> n == Blocks(length)
  {
  }

  lemma NextPiece(all: seq<byte>, now: seq<byte>, off: nat, s: seq<byte>, k: nat, use: nat)
    requires SameFrom(now, all, off + k) && Holds(all, off, s) && k + use <= |s|
    ensures now[off + k..off + k + use] == s[k..k + use]
    ensures SameFrom(now, all, off + k + use)
  {
    SameFromOn(now, all, off + k, use);
    SliceOfSlice(all, off, |s|, k, use);
  }

  lemma LeftLess(length: nat, n: nat, left: nat)
    requires 0 < left && LeftAfter(length, n, left)
    ensures length - left == BLOCK * n && n < Blocks(length)
    ensures LeftAfter(length, n + 1, left - Min(BLOCK, left))
  {
  }

  /** What the message loop works on: snapshots of the state it starts from. */
  datatype Job = Job(mode: Mode, iv: seq<byte>, y0: Block, s: seq<byte>,
                           all: seq<byte>, inOff: nat, before: seq<byte>, outOff: nat)

  ghost predicate Fits(j: Job) {
    && 7 <= |j.iv| <= 13 && |j.s| < Pow256(CounterBytes(j.iv))
    && Holds(j.all, j.inOff, j.s) && j.inOff + |j.s| <= |j.all|
    && j.outOff + |j.s| <= |j.before|
  }

  ghost predicate Buffers(j: Job, y: array<byte>, b: array<byte>, ctr: array<byte>,
                          input: array<byte>, output: array<byte>) {
    && Apart(y, b, ctr, input, output)
    && input.Length == |j.all| && output.Length == |j.before|
    && (input == output ==> j.inOff == j.outOff)
  }

  /** The invariant of the message loop: left bytes remain, after n turns. */
  ghost predicate LoopAt(c: Perm, j: Job, n: nat, left: int,
                         now: seq<byte>, out: seq<byte>, y: seq<byte>, ctr: seq<byte>) {
    && Fits(j) && 0 <= left <= |j.s| && n <= Blocks(|j.s|) && LeftAfter(|j.s|, n, left)
    && Crypted(c, j.mode, j.iv, j.y0, j.s, n, j.before, j.outOff, out, y, ctr)
    && SameFrom(now, j.all, j.inOff + (|j.s| - left))
  }

  /** One turn of the loop: up to a block of what is left. */
  method CryptMore(c: Perm, mode: Mode, iv: seq<byte>, y: array<byte>, b: array<byte>, ctr: array<byte>,
                   input: array<byte>, inOff: nat, output: array<byte>, outOff: nat, length: nat, left: int,
                   ghost j: Job, ghost n: nat)
    returns (next: int)
    requires Buffers(j, y, b, ctr, input, output)
    requires j == Job(mode, iv, j.y0, j.s, j.all, inOff, j.before, outOff) && |j.s| == length
    requires LoopAt(c, j, n, left, input[..], output[..], y[..], ctr[..]) && left > 0
    modifies y, b, ctr, output
    ensures next < left
    ensures LoopAt(c, j, n + 1, next, input[..], output[..], y[..], ctr[..])
  {
    LeftLess(length, n, left);
    assert ctr[..] == CounterBlock(iv, n + 1);
    hide Crypted, Holds, SameFrom, CounterBlock, Blocks, Pow256, LeftAfter, Apart;
    var use := Min(BLOCK, left);
    CryptStep(c, mode, iv, y, b, ctr, input, inOff, output, outOff, length - left, use,
              n, j.y0, j.s, j.all, j.before);
    next := left - use;
  }

  /** The loop that authenticates and masks the message. */
  method CryptLoop(c: Perm, mode: Mode, length: nat, iv: seq<byte>, y: array<byte>, b: array<byte>, ctr: array<byte>,
                   input: array<byte>, inOff: nat, output: array<byte>, outOff: nat, ghost j: Job)
    requires Buffers(j, y, b, ctr, input, output)
    requires j == Job(mode, iv, y[..], j.s, input[..], inOff, output[..], outOff) && |j.s| == length
    requires Fits(j) && ctr[..] == CounterBlock(iv, 1)
    modifies y, b, ctr, output
    ensures Crypted(c, mode, iv, j.y0, j.s, Blocks(length), j.before, outOff, output[..], y[..], ctr[..])
  {
    LoopStart(c, j);
    ghost var n := 0;
    var left: int := length;
    hide LoopAt, Crypted, Fits, Buffers, CounterBlock, Blocks;
    while left > 0
      invariant LoopAt(c, j, n, left, input[..], output[..], y[..], ctr[..])
    {
      left := CryptMore(c, mode, iv, y, b, ctr, input, inOff, output, outOff, length, left, j, n);
      n := n + 1;
    }
    LoopEnd(c, j, n, left, input[..], output[..], y[..], ctr[..]);
  }

  lemma LoopStart(c: Perm, j: Job)
    requires Fits(j)
    ensures LoopAt(c, j, 0, |j.s|, j.all, j.before, j.y0, CounterBlock(j.iv, 1))
  {
    hide Crypted, CounterBlock;
    CryptedNone(c, j.mode, j.iv, j.y0, j.s, j.before, j.outOff);
  }

  lemma LoopEnd(c: Perm, j: Job, n: nat, left: int, now: seq<byte>, out: seq<byte>, y: seq<byte>, ctr: seq<byte>)
    requires LoopAt(c, j, n, left, now, out, y, ctr) && left <= 0
    ensures Fits(j) && Crypted(c, j.mode, j.iv, j.y0, j.s, Blocks(|j.s|), j.before, j.outOff, out, y, ctr)
  {
    hide Crypted;
    LeftAtEnds(|j.s|, n);
  }

  // ---- The whole operation ----

  /** The MAC over the formatted blocks, phase by phase. */
  lemma MacPhases(c: Perm, iv: seq<byte>, add: seq<byte>, tagLen: nat, m: seq<byte>, y1: Block, y2: Block, y3: Block)
    requires Accepts(|m|, iv, |add|, tagLen)
    requires y1 == CbcOne(c, Encrypt, Zeros(BLOCK), FirstBlock(|m|, iv, |add|, tagLen))
    requires y2 == CbcNext(c, Encrypt, y1, Associated(add), AddBlocks(|add|))
    requires y3 == CbcNext(c, Encrypt, y2, ZeroFilled(m), Blocks(|m|))
    ensures y3 == CbcNext(c, Encrypt, Zeros(BLOCK), Formatted(iv, add, tagLen, m), 1 + AddBlocks(|add|) + Blocks(|m|))
  {
    var first := FirstBlock(|m|, iv, |add|, tagLen);
    var f, g := Associated(add), ZeroFilled(m);
    assert Formatted(iv, add, tagLen, m) == first + f + g;
    hide FirstBlock, CbcOne, CbcNext, Associated, ZeroFilled, AddBlocks, Blocks, Formatted;
    FirstMac(c, first);
    MacThree(c, Zeros(BLOCK), first, f, AddBlocks(|add|), g, Blocks(|m|));
  }

  lemma MacThree(c: Perm, z: Block, first: Block, f: seq<byte>, n: nat, g: seq<byte>, k: nat)
    requires |f| == BLOCK * n && |g| == BLOCK * k
    ensures CbcNext(c, Encrypt, z, first + f + g, 1 + n + k)
         == CbcNext(c, Encrypt, CbcNext(c, Encrypt, CbcNext(c, Encrypt, z, first, 1), f, n), g, k)
  {
    hide CbcNext, Cbc;
    CbcSplit(c, Encrypt, z, first, 1, f, n);
    CbcSplit(c, Encrypt, z, first + f, 1 + n, g, k);
  }

  lemma FirstMac(c: Perm, first: Block)
    ensures CbcNext(c, Encrypt, Zeros(BLOCK), first, 1) == CbcOne(c, Encrypt, Zeros(BLOCK), first)
  {
    MacNext(c, Zeros(BLOCK), first, 0);
    assert Blk(first, 0) == first;
  }

  /** The counter block, with counter 1 or 0. */
  method SetCounter(ctr: array<byte>, iv: seq<byte>, last: byte)
    requires ctr.Length == BLOCK && 7 <= |iv| <= 13 && last < 2
    modifies ctr
    ensures ctr[..] == CounterBlock(iv, if last == 1 then 1 else 0)
  {
    var q := 15 - |iv|;
    hide BigEndian, ByteOf;
    SmallCounter(q);
    LoadBlock(ctr, [ByteOf(q - 1)] + iv);
    hide Zeros;
    ghost var was := ctr[..];
    ctr[15] := last;
    assert ctr[..] == was[..15] + [last];
    assert was[..15] == [ByteOf(q - 1)] + iv + Zeros(q)[..q - 1];
  }

  lemma SmallCounter(q: nat)
    requires q >= 2
    ensures BigEndian(0, q) == Zeros(q)[..q - 1] + [0]
    ensures BigEndian(1, q) == Zeros(q)[..q - 1] + [1]
  {
    hide BigEndian, Zeros, ByteOf;
    ZerosPrefix(q);
    OneAsByte();
    BigEndianZero(q - 1);
    LastDigit(0, q);
    LastDigit(1, q);
  }

  lemma ZerosPrefix(q: nat)
    requires q > 0
    ensures Zeros(q)[..q - 1] == Zeros(q - 1)
  {
  }

  lemma OneAsByte()
    ensures ByteOf(0) == 0 && ByteOf(1) == 1
  {
    assert ByteOf(1) == ByteOf(0) + 1;
  }

  lemma LastDigit(x: nat, q: nat)
    requires x < 256 && q > 0
    ensures BigEndian(x, q) == BigEndian(0, q - 1) + [ByteOf(x)]
  {
    assert x / 256 == 0 && x % 256 == x;
  }

  /** The MAC of all that comes before the message; false when the length does not fit. */
  method MacHead(c: Perm, length: nat, iv: seq<byte>, add: seq<byte>, tagLen: nat, y: array<byte>, b: array<byte>)
    returns (ok: bool)
    requires y.Length == BLOCK == b.Length && y != b
    requires 4 <= tagLen <= 16 && tagLen % 2 == 0 && 7 <= |iv| <= 13 && |add| <= 0xFF00
    modifies y, b
    ensures ok <==> Accepts(length, iv, |add|, tagLen)
    ensures ok ==>
      var y1 := CbcOne(c, Encrypt, Zeros(BLOCK), FirstBlock(length, iv, |add|, tagLen));
      y[..] == CbcNext(c, Encrypt, y1, Associated(add), AddBlocks(|add|))
  {
    hide FirstBlock, CbcOne, Spliced, Accepts;
    ok := MakeFirstBlock(b, length, iv, |add|, tagLen);
    if !ok {
      return;
    }
    LoadBlock(y, []);
    assert y[..] == Zeros(BLOCK);
    UpdateCbcMac(c, y, b, Zeros(BLOCK), b[..]);
    if |add| > 0 {
      MacAssociated(c, y, b, add, y[..]);
    }
  }

  /** The counter reset to 0 masks the MAC; its beginning is the tag. */
  method MaskTag(c: Perm, iv: seq<byte>, y: array<byte>, b: array<byte>, ctr: array<byte>,
                 tag: array<byte>, tagLen: nat, ghost mac: Block, ghost before: seq<byte>)
    requires y.Length == BLOCK == b.Length == ctr.Length && y != b && b != ctr && y != ctr
    requires tag != y && tag != b && tag != ctr && tagLen <= BLOCK && tagLen <= tag.Length
    requires 7 <= |iv| <= 13 && mac == y[..] && before == tag[..]
    modifies y, b, ctr, tag
    ensures tag[..] == Spliced(before, 0, Xor(mac, c.enc(CounterBlock(iv, 0)))[..tagLen])
  {
    SetCounter(ctr, iv, 0);
    assert y[0..0 + BLOCK] == mac;
    ghost var key := c.enc(CounterBlock(iv, 0));
    CtrCrypt(c, ctr, b, y, 0, y, 0, BLOCK, key, mac, mac);
    SplicedWhole(mac, Xor(mac, key));
    Put(tag, 0, y[..tagLen]);
  }

  /** ccm_auth_crypt. */
  method AuthCrypt(c: Perm, mode: Mode, length: nat, iv: seq<byte>, add: seq<byte>,
                   input: array<byte>, inOff: nat, output: array<byte>, outOff: nat,
                   tag: array<byte>, tagLen: nat)
    returns (ok: bool)
    requires inOff + length <= input.Length && outOff + length <= output.Length
    requires tagLen <= 16 ==> tagLen <= tag.Length
    requires input == output ==> inOff == outOff
    requires tag != input && tag != output
    modifies output, tag
    ensures ok <==> Accepts(length, iv, |add|, tagLen)
    ensures !ok ==> output[..] == old(output[..]) && tag[..] == old(tag[..])
    ensures ok ==>
      var s := old(input[inOff..inOff + length]);
      && output[..] == Spliced(old(output[..]), outOff, Masked(c, iv, s))
      && tag[..] == Spliced(old(tag[..]), 0, Tag(c, iv, add, tagLen, Plain(c, mode, iv, s)))
  {
    if tagLen < 4 || tagLen > 16 || tagLen % 2 != 0 || |iv| < 7 || |iv| > 13 || |add| > 0xFF00 {
      return false;
    }
    var b, y := new byte[BLOCK], new byte[BLOCK];
    ok := MacHead(c, length, iv, add, tagLen, y, b);
    if ok {
      var ctr := new byte[BLOCK];
      SetCounter(ctr, iv, 1);
      ghost var j := Job(mode, iv, y[..], input[inOff..inOff + length], input[..], inOff, output[..], outOff);
      CryptAndTag(c, mode, length, iv, add, input, inOff, output, outOff, tag, tagLen, y, b, ctr, j, tag[..]);
    }
  }

  /** The second half of ccm_auth_crypt, once the length has been accepted. */
  method CryptAndTag(c: Perm, mode: Mode, length: nat, iv: seq<byte>, add: seq<byte>,
                     input: array<byte>, inOff: nat, output: array<byte>, outOff: nat,
                     tag: array<byte>, tagLen: nat, y: array<byte>, b: array<byte>, ctr: array<byte>,
                     ghost j: Job, ghost before: seq<byte>)
    requires Buffers(j, y, b, ctr, input, output)
    requires j == Job(mode, iv, y[..], j.s, input[..], inOff, output[..], outOff) && |j.s| == length
    requires Fits(j) && ctr[..] == CounterBlock(iv, 1)
    requires tag != input && tag != output && tag != y && tag != b && tag != ctr
    requires Accepts(length, iv, |add|, tagLen) && tagLen <= tag.Length && before == tag[..]
    requires
      var y1 := CbcOne(c, Encrypt, Zeros(BLOCK), FirstBlock(length, iv, |add|, tagLen));
      y[..] == CbcNext(c, Encrypt, y1, Associated(add), AddBlocks(|add|))
    modifies y, b, ctr, output, tag
    ensures output[..] == Spliced(j.before, outOff, Masked(c, iv, j.s))
    ensures tag[..] == Spliced(before, 0, Tag(c, iv, add, tagLen, Plain(c, mode, iv, j.s)))
  {
    hide Crypted, Fits, Spliced, CounterBlock, Blocks, Associated, AddBlocks, Masked, FirstBlock, CbcNext, CbcOne, Xor;
    CryptLoop(c, mode, length, iv, y, b, ctr, input, inOff, output, outOff, j);
    ghost var mac := y[..];
    CryptedAll(c, j, output[..], mac, ctr[..]);
    TagIs(c, j, add, tagLen, mac);
    MaskTag(c, iv, y, b, ctr, tag, tagLen, mac, before);
  }

  lemma CryptedAll(c: Perm, j: Job, out: seq<byte>, y: seq<byte>, ctr: seq<byte>)
    requires Fits(j) && Crypted(c, j.mode, j.iv, j.y0, j.s, Blocks(|j.s|), j.before, j.outOff, out, y, ctr)
    ensures out == Spliced(j.before, j.outOff, Masked(c, j.iv, j.s))
    ensures y == CbcNext(c, Encrypt, j.y0, ZeroFilled(Plain(c, j.mode, j.iv, j.s)), Blocks(|j.s|))
  {
    hide Masked, Spliced, CbcNext, ZeroFilled, CounterBlock;
    assert Min(BLOCK * Blocks(|j.s|), |j.s|) == |j.s|;
    assert Masked(c, j.iv, j.s)[..|j.s|] == Masked(c, j.iv, j.s);
  }

  lemma TagIs(c: Perm, j: Job, add: seq<byte>, tagLen: nat, mac: Block)
    requires Fits(j) && Accepts(|j.s|, j.iv, |add|, tagLen)
    requires
      var y1 := CbcOne(c, Encrypt, Zeros(BLOCK), FirstBlock(|j.s|, j.iv, |add|, tagLen));
      j.y0 == CbcNext(c, Encrypt, y1, Associated(add), AddBlocks(|add|))
    requires mac == CbcNext(c, Encrypt, j.y0, ZeroFilled(Plain(c, j.mode, j.iv, j.s)), Blocks(|j.s|))
    ensures Tag(c, j.iv, add, tagLen, Plain(c, j.mode, j.iv, j.s)) == Xor(mac, c.enc(CounterBlock(j.iv, 0)))[..tagLen]
  {
    hide FirstBlock, CbcOne, CbcNext, Associated, ZeroFilled, AddBlocks, Blocks, Formatted, CounterBlock, Xor, Plain;
    var y1 := CbcOne(c, Encrypt, Zeros(BLOCK), FirstBlock(|j.s|, j.iv, |add|, tagLen));
    MacPhases(c, j.iv, add, tagLen, Plain(c, j.mode, j.iv, j.s), y1, j.y0, mac);
  }

  /** ccm_encrypt_and_tag. */
  method EncryptAndTag(c: Perm, length: nat, iv: seq<byte>, add: seq<byte>,
                       input: array<byte>, inOff: nat, output: array<byte>, outOff: nat,
                       tag: array<byte>, tagLen: nat)
    returns (err: Error)
    requires inOff + length <= input.Length && outOff + length <= output.Length
    requires tagLen <= 16 ==> tagLen <= tag.Length
    requires input == output ==> inOff == outOff
    requires tag != input && tag != output
    modifies output, tag
    ensures err == if Accepts(length, iv, |add|, tagLen) then None else BadInput
    ensures err != None ==> output[..] == old(output[..]) && tag[..] == old(tag[..])
    ensures err == None ==>
      var m := old(input[inOff..inOff + length]);
      && output[..] == Spliced(old(output[..]), outOff, Masked(c, iv, m))
      && tag[..] == Spliced(old(tag[..]), 0, Tag(c, iv, add, tagLen, m))
  {
    hide Accepts, Masked, Tag, Spliced;
    var ok := AuthCrypt(c, EncryptMode, length, iv, add, input, inOff, output, outOff, tag, tagLen);
    err := if ok then None else BadInput;
  }

  /** The comparison loop: diff |= tag[i] ^ checkTag[i]. */
  method SameTag(tag: array<byte>, check: array<byte>, tagLen: nat) returns (same: bool)
    requires tagLen <= tag.Length && tagLen <= check.Length
    ensures same <==> tag[..tagLen] == check[..tagLen]
  {
    var diff: byte := 0;
    var i := 0;
    while i < tagLen
      invariant i <= tagLen
      invariant diff == 0 <==> forall k :: 0 <= k < i ==> tag[k] == check[k]
    {
      DiffIsZero(diff, tag[i], check[i]);
      diff := diff | (tag[i] ^ check[i]);
      i := i + 1;
    }
    same := diff == 0;
  }

  lemma DiffIsZero(diff: byte, a: byte, b: byte)
    ensures diff | (a ^ b) == 0 <==> diff == 0 && a == b
  {
  }

  /** ccm_auth_decrypt: the output is zeroed unless the tag is the right one. */
  method AuthDecrypt(c: Perm, length: nat, iv: seq<byte>, add: seq<byte>,
                     input: array<byte>, inOff: nat, output: array<byte>, outOff: nat,
                     tag: array<byte>, tagLen: nat)
    returns (err: Error)
    requires inOff + length <= input.Length && outOff + length <= output.Length
    requires tagLen <= 16 ==> tagLen <= tag.Length
    requires input == output ==> inOff == outOff
    requires tag != output
    modifies output
    ensures err == BadInput <==> !Accepts(length, iv, |add|, tagLen)
    ensures err == BadInput ==> output[..] == old(output[..])
    ensures Accepts(length, iv, |add|, tagLen) ==>
      var m := Masked(c, iv, old(input[inOff..inOff + length]));
      && (err == None <==> tag[..tagLen] == Tag(c, iv, add, tagLen, m))
      && output[..] == Spliced(old(output[..]), outOff, if err == None then m else Zeros(length))
  {
    hide Pow256, Masked, Tag, Spliced, Zeros;
    var checkTag := new byte[16];
    ghost var was, before, s := checkTag[..], output[..], input[inOff..inOff + length];
    var ok := AuthCrypt(c, DecryptMode, length, iv, add, input, inOff, output, outOff, checkTag, tagLen);
    if !ok {
      return BadInput;
    }
    ghost var t := Tag(c, iv, add, tagLen, Masked(c, iv, s));
    assert checkTag[..tagLen] == checkTag[0..0 + tagLen] == t;
    var same := SameTag(tag, checkTag, tagLen);
    if !same {
      SplicedOver(before, outOff, Masked(c, iv, s), Zeros(length));
      Put(output, outOff, Zeros(length));
      return AuthFailed;
    }
    err := None;
  }

  /**
    * Whatever was accepted for encryption is accepted back with its own tag,
    * and the message comes back.
    */
  method RoundTrip(c: Perm, length: nat, iv: seq<byte>, add: seq<byte>, buf: array<byte>, tag: array<byte>, tagLen: nat)
    returns (sealed: Error, accepted: Error)
    requires length == buf.Length && (tagLen <= 16 ==> tagLen <= tag.Length) && tag != buf
    modifies buf, tag
    ensures sealed == None <==> Accepts(length, iv, |add|, tagLen)
    ensures sealed == None ==> accepted == None
    ensures buf[..] == old(buf[..])
  {
    hide Pow256, Masked, Tag, Spliced;
    ghost var m := buf[..];
    sealed := EncryptAndTag(c, length, iv, add, buf, 0, buf, 0, tag, tagLen);
    accepted := sealed;
    if sealed == None {
      WholeBuffer(m, Masked(c, iv, m));
      MaskTwice(c, iv, m);
      WholeBuffer(Masked(c, iv, m), m);
      accepted := AuthDecrypt(c, length, iv, add, buf, 0, buf, 0, tag, tagLen);
    }
  }

  lemma WholeBuffer(a: seq<byte>, b: seq<byte>)
    requires |a| == |b|
    ensures Spliced(a, 0, b) == b
    ensures a[0..0 + |a|] == a
  {
  }
}
