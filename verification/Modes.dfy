/**
  * The mode loops of aes.c over an arbitrary block permutation, each proved
  * against the textbook definition of its mode (NIST SP 800-38A, sections
  * 6.2, 6.3 and 6.5).
  */
module Modes {
  import opened BlockCipher

  datatype Operation = Encrypt | Decrypt

  // ---- CBC (section 6.2) ----

  function Blk(s: seq<byte>, j: nat): Block
    requires BLOCK * j + BLOCK <= |s|
  {
    s[BLOCK * j..BLOCK * j + BLOCK]
  }

  function CbcOne(c: Perm, op: Operation, iv: Block, b: Block): Block {
    if op == Encrypt then c.enc(Xor(b, iv)) else Xor(c.dec(b), iv)
  }

  /** The chaining value after the first n blocks of s: the last ciphertext block. */
  function CbcNext(c: Perm, op: Operation, iv: Block, s: seq<byte>, n: nat): Block
    requires BLOCK * n <= |s|
  {
    if n == 0 then iv
    else if op == Encrypt then CbcOne(c, op, CbcNext(c, op, iv, s, n - 1), Blk(s, n - 1))
    else Blk(s, n - 1)
  }

  /** The first n blocks of s under CBC. */
  function Cbc(c: Perm, op: Operation, iv: Block, s: seq<byte>, n: nat): (r: seq<byte>)
    requires BLOCK * n <= |s|
    ensures |r| == BLOCK * n
  {
    if n == 0 then [] else Cbc(c, op, iv, s, n - 1) + CbcOne(c, op, CbcNext(c, op, iv, s, n - 1), Blk(s, n - 1))
  }

  lemma {:induction false} CbcPrefix(c: Perm, op: Operation, iv: Block, a: seq<byte>, b: seq<byte>, n: nat)
    requires BLOCK * n <= |a|
    ensures Cbc(c, op, iv, a + b, n) == Cbc(c, op, iv, a, n)
    ensures CbcNext(c, op, iv, a + b, n) == CbcNext(c, op, iv, a, n)
  {
    hide CbcOne;
    if n > 0 {
      CbcPrefix(c, op, iv, a, b, n - 1);
      assert Blk(a + b, n - 1) == Blk(a, n - 1);
    }
  }

  /** Running a mode over a and then b from where a left it is running it over a + b. */
  lemma {:induction false} CbcSplit(c: Perm, op: Operation, iv: Block, a: seq<byte>, n: nat, b: seq<byte>, m: nat)
    requires |a| == BLOCK * n && BLOCK * m <= |b|
    ensures
      var next := CbcNext(c, op, iv, a, n);
      && Cbc(c, op, iv, a + b, n + m) == Cbc(c, op, iv, a, n) + Cbc(c, op, next, b, m)
      && CbcNext(c, op, iv, a + b, n + m) == CbcNext(c, op, next, b, m)
    decreases m
  {
    hide Cbc, CbcNext, CbcOne, Blk;
    var next := CbcNext(c, op, iv, a, n);
    if m == 0 {
      CbcPrefix(c, op, iv, a, b, n);
      CbcUnfold(c, op, next, b, 0);
    } else {
      CbcSplit(c, op, iv, a, n, b, m - 1);
      CbcUnfold(c, op, iv, a + b, n + m);
      CbcUnfold(c, op, next, b, m);
      BlkBehind(a, n, b, m - 1);
      ConcatTwice(Cbc(c, op, iv, a, n), Cbc(c, op, next, b, m - 1), CbcOne(c, op, CbcNext(c, op, next, b, m - 1), Blk(b, m - 1)));
    }
  }

  lemma ConcatTwice(a: seq<byte>, b: seq<byte>, c: seq<byte>)
    ensures (a + b) + c == a + (b + c)
  {
  }

  lemma BlkBehind(a: seq<byte>, n: nat, b: seq<byte>, k: nat)
    requires |a| == BLOCK * n && BLOCK * (k + 1) <= |b|
    ensures Blk(a + b, n + k) == Blk(b, k)
  {
    assert BLOCK * (n + k) == |a| + BLOCK * k;
  }

  lemma CbcUnfold(c: Perm, op: Operation, iv: Block, s: seq<byte>, n: nat)
    requires BLOCK * n <= |s|
    ensures n == 0 ==> Cbc(c, op, iv, s, n) == [] && CbcNext(c, op, iv, s, n) == iv
    ensures n > 0 ==>
      var prev, b := CbcNext(c, op, iv, s, n - 1), Blk(s, n - 1);
      && Cbc(c, op, iv, s, n) == Cbc(c, op, iv, s, n - 1) + CbcOne(c, op, prev, b)
      && CbcNext(c, op, iv, s, n) == if op == Encrypt then CbcOne(c, op, prev, b) else b
  {
  }

  lemma CbcUndo(c: Perm, prev: Block, b: Block)
    requires Inverse(c)
    ensures CbcOne(c, Decrypt, prev, CbcOne(c, Encrypt, prev, b)) == b
  {
    XorTwice(b, prev);
  }

  lemma {:induction false} CbcRoundTrip(c: Perm, iv: Block, s: seq<byte>, n: nat)
    requires BLOCK * n <= |s| && Inverse(c)
    ensures
      var e := Cbc(c, Encrypt, iv, s, n);
      && Cbc(c, Decrypt, iv, e, n) == s[..BLOCK * n]
      && CbcNext(c, Decrypt, iv, e, n) == CbcNext(c, Encrypt, iv, s, n)
  {
    hide Cbc, CbcNext, CbcOne;
    CbcUnfold(c, Encrypt, iv, s, n);
    if n == 0 {
      CbcUnfold(c, Decrypt, iv, [], 0);
    } else {
      CbcRoundTrip(c, iv, s, n - 1);
      var e, next, b := Cbc(c, Encrypt, iv, s, n - 1), CbcNext(c, Encrypt, iv, s, n - 1), Blk(s, n - 1);
      var o := CbcOne(c, Encrypt, next, b);
      CbcPrefix(c, Decrypt, iv, e, o, n - 1);
      CbcUnfold(c, Decrypt, iv, e + o, n);
      assert Blk(e + o, n - 1) == o;
      CbcUndo(c, next, b);
      assert s[..BLOCK * n] == s[..BLOCK * (n - 1)] + b;
    }
  }

  // ---- The definition of CBC ----

  /** One block b becomes r behind the ciphertext block prev, which is met in front of the cipher or behind its inverse. */
  ghost predicate IsCbcBlock(c: Perm, op: Operation, b: Block, prev: Block, r: Block) {
    r == if op == Encrypt then c.enc(Xor(b, prev)) else Xor(c.dec(b), prev)
  }

  /** out is the CBC encryption or decryption of the first n blocks of s. */
  ghost predicate IsCbc(c: Perm, op: Operation, iv: Block, s: seq<byte>, out: seq<byte>, n: nat)
    requires BLOCK * n <= |s| && BLOCK * n <= |out|
  {
    var ciphertext := if op == Encrypt then out else s;
    forall j :: 0 <= j < n ==>
      IsCbcBlock(c, op, Blk(s, j), if j == 0 then iv else Blk(ciphertext, j - 1), Blk(out, j))
  }

  /** What is computed is that and only that, and the chaining value left is the last ciphertext block. */
  lemma {:induction false} CbcDefinition(c: Perm, op: Operation, iv: Block, s: seq<byte>, out: seq<byte>, n: nat)
    requires BLOCK * n <= |s| && BLOCK * n <= |out|
    ensures Cbc(c, op, iv, s, n) == out[..BLOCK * n] <==> IsCbc(c, op, iv, s, out, n)
    ensures IsCbc(c, op, iv, s, out, n) ==>
      CbcNext(c, op, iv, s, n) == if n == 0 then iv else Blk(if op == Encrypt then out else s, n - 1)
  {
    hide Cbc, CbcNext, IsCbc, Blk, CbcOne, IsCbcBlock;
    IsCbcStep(c, op, iv, s, out, n);
    CbcUnfold(c, op, iv, s, n);
    if n > 0 {
      CbcDefinition(c, op, iv, s, out, n - 1);
      var prev := CbcNext(c, op, iv, s, n - 1);
      BlockIs(c, op, Blk(s, n - 1), prev, Blk(out, n - 1));
      OneMoreBlock(out, Cbc(c, op, iv, s, n - 1), CbcOne(c, op, prev, Blk(s, n - 1)), n - 1);
    }
  }

  lemma BlockIs(c: Perm, op: Operation, b: Block, prev: Block, r: Block)
    ensures IsCbcBlock(c, op, b, prev, r) <==> r == CbcOne(c, op, prev, b)
  {
  }

  lemma IsCbcStep(c: Perm, op: Operation, iv: Block, s: seq<byte>, out: seq<byte>, n: nat)
    requires BLOCK * n <= |s| && BLOCK * n <= |out|
    ensures
      var ciphertext := if op == Encrypt then out else s;
      IsCbc(c, op, iv, s, out, n) <==>
        n == 0 ||
        (IsCbc(c, op, iv, s, out, n - 1)
         && IsCbcBlock(c, op, Blk(s, n - 1), if n == 1 then iv else Blk(ciphertext, n - 2), Blk(out, n - 1)))
  {
    hide Blk, IsCbcBlock;
  }

  lemma OneMoreBlock(out: seq<byte>, r: seq<byte>, b: Block, n: nat)
    requires |r| == BLOCK * n && BLOCK * (n + 1) <= |out|
    ensures r + b == out[..BLOCK * (n + 1)] <==> r == out[..BLOCK * n] && b == Blk(out, n)
  {
    var t := out[..BLOCK * (n + 1)];
    assert t == out[..BLOCK * n] + Blk(out, n);
    if r + b == t {
      assert r == t[..BLOCK * n] && b == t[BLOCK * n..];
    }
  }

  /** The byte loop output[k] := input[k] ^ mask[k] for k < len; input and output may be one buffer. */
  method XorInto(input: array<byte>, i: nat, output: array<byte>, o: nat, mask: array<byte>, len: nat,
                 ghost b: seq<byte>, ghost x: seq<byte>, ghost before: seq<byte>)
    requires mask.Length == BLOCK && mask != output && len <= BLOCK
    requires i + len <= input.Length && o + len <= output.Length
    requires input == output ==> i == o
    requires b == input[i..i + len] && x == Xor(b, mask[..]) && before == output[..]
    modifies output
    ensures output[..] == Spliced(before, o, x)
  {
    hide Spliced, Xor;
    var k := 0;
    while k < len
      invariant k <= len
      invariant forall j :: 0 <= j < k ==> output[o + j] == x[j]
      invariant forall j :: k <= j < len ==> input[i + j] == b[j]
      invariant forall j :: 0 <= j < output.Length && !(o <= j < o + k) ==> output[j] == before[j]
    {
      assert input[i + k] ^ mask[k] == x[k];
      output[o + k] := input[i + k] ^ mask[k];
      k := k + 1;
    }
    SplicedBy(before, o, x, output[..]);
  }

  /** One turn of either loop of aes_crypt_cbc, on block b with chaining value prev. */
  method CbcBlock(c: Perm, op: Operation, iv: array<byte>, input: array<byte>, i: nat,
                  output: array<byte>, o: nat, ghost b: Block, ghost prev: Block, ghost out: seq<byte>)
    requires iv.Length == BLOCK
    requires iv != input && iv != output
    requires i + BLOCK <= input.Length && o + BLOCK <= output.Length
    requires input == output ==> i == o
    requires b == input[i..i + BLOCK] && prev == iv[..] && out == output[..]
    modifies iv, output
    ensures iv[..] == if op == Encrypt then CbcOne(c, op, prev, b) else b
    ensures output[..] == Spliced(out, o, CbcOne(c, op, prev, b))
    ensures SameFrom(input[..], old(input[..]), i + BLOCK)
  {
    ghost var all := input[..];
    assert SameFrom(all, all, i + BLOCK);
    SplicedTail(out, o, CbcOne(c, op, prev, b));
    hide Spliced, Xor, SameFrom;
    if op == Decrypt {
      var temp: Block := input[i..i + BLOCK];
      Put(output, o, c.dec(temp));
      XorInto(output, o, output, o, iv, BLOCK, c.dec(b), Xor(c.dec(b), prev), output[..]);
      SplicedOver(out, o, c.dec(temp), CbcOne(c, op, prev, b));
      Put(iv, 0, temp);
    } else {
      XorInto(input, i, output, o, iv, BLOCK, b, Xor(b, prev), out);
      Put(output, o, c.enc(output[o..o + BLOCK]));
      SplicedOver(out, o, Xor(b, prev), CbcOne(c, op, prev, b));
      Put(iv, 0, output[o..o + BLOCK]);
    }
  }

  /** Reading block n of the input region off..off + length, whose tail is as it was in all. */
  lemma BlkOf(all: seq<byte>, now: seq<byte>, off: nat, length: nat, n: nat)
    requires SameFrom(now, all, off + BLOCK * n)
    requires off + length <= |all| && BLOCK * n + BLOCK <= length
    ensures
      var k := off + BLOCK * n;
      && now[k..k + BLOCK] == Blk(all[off..off + length], n)
      && SameFrom(now, all, k + BLOCK)
  {
    SameFromOn(now, all, off + BLOCK * n, BLOCK);
    SliceOfSlice(all, off, length, BLOCK * n, BLOCK);
  }

  /** n blocks of s are processed: out is the buffer and iv the chaining value by then. */
  ghost predicate Reached(c: Perm, op: Operation, iv0: Block, s: seq<byte>, n: nat,
                          before: seq<byte>, off: nat, out: seq<byte>, iv: seq<byte>)
    requires BLOCK * n <= |s| && off + |s| <= |before|
  {
    && iv == CbcNext(c, op, iv0, s, n)
    && out == Spliced(before, off, Cbc(c, op, iv0, s, n))
  }

  lemma ReachedNone(c: Perm, op: Operation, iv: Block, s: seq<byte>, before: seq<byte>, off: nat)
    requires off + |s| <= |before|
    ensures Reached(c, op, iv, s, 0, before, off, before, iv)
  {
  }

  lemma ReachedNext(c: Perm, op: Operation, iv0: Block, s: seq<byte>, n: nat,
                    before: seq<byte>, off: nat, out: seq<byte>, iv: Block)
    requires BLOCK * n + BLOCK <= |s| && off + |s| <= |before| == |out|
    requires Reached(c, op, iv0, s, n, before, off, out, iv)
    ensures
      var b := Blk(s, n);
      var r := CbcOne(c, op, iv, b);
      Reached(c, op, iv0, s, n + 1, before, off,
              Spliced(out, off + BLOCK * n, r), if op == Encrypt then r else b)
  {
    hide CbcOne, Spliced, Blk;
    SplicedTwice(before, off, Cbc(c, op, iv0, s, n), CbcOne(c, op, CbcNext(c, op, iv0, s, n), Blk(s, n)));
  }

  /** One turn of the loop, in terms of what has been reached. */
  method CbcTurn(c: Perm, op: Operation, iv: array<byte>, input: array<byte>, inOff: nat,
                 output: array<byte>, outOff: nat, n: nat,
                 ghost iv0: Block, ghost s: seq<byte>, ghost all: seq<byte>, ghost before: seq<byte>)
    requires iv.Length == BLOCK
    requires iv != input && iv != output
    requires BLOCK * n + BLOCK <= |s| && inOff + |s| <= input.Length && outOff + |s| <= output.Length
    requires input == output ==> inOff == outOff
    requires |all| == input.Length && all[inOff..inOff + |s|] == s && |before| == output.Length
    requires Reached(c, op, iv0, s, n, before, outOff, output[..], iv[..])
    requires SameFrom(input[..], all, inOff + BLOCK * n)
    modifies iv, output
    ensures Reached(c, op, iv0, s, n + 1, before, outOff, output[..], iv[..])
    ensures SameFrom(input[..], all, inOff + BLOCK * n + BLOCK)
  {
    hide Reached, CbcOne, Spliced, CbcNext, Cbc, Blk, SameFrom;
    ghost var b, prev, now, out := Blk(s, n), iv[..], input[..], output[..];
    BlkOf(all, now, inOff, |s|, n);
    ReachedNext(c, op, iv0, s, n, before, outOff, out, prev);
    CbcBlock(c, op, iv, input, inOff + BLOCK * n, output, outOff + BLOCK * n, b, prev, out);
    SameFromTrans(input[..], now, all, inOff + BLOCK * n + BLOCK);
  }

  /** The while loop of aes_crypt_cbc over the given number of blocks. */
  method CbcBlocks(c: Perm, op: Operation, blocks: nat, iv: array<byte>,
                   input: array<byte>, inOff: nat, output: array<byte>, outOff: nat,
                   ghost iv0: Block, ghost s: seq<byte>, ghost all: seq<byte>, ghost before: seq<byte>)
    requires iv.Length == BLOCK
    requires iv != input && iv != output
    requires |s| == BLOCK * blocks && inOff + |s| <= input.Length && outOff + |s| <= output.Length
    requires input == output ==> inOff == outOff
    requires iv0 == iv[..] && all == input[..] && before == output[..] && all[inOff..inOff + |s|] == s
    modifies iv, output
    ensures Reached(c, op, iv0, s, blocks, before, outOff, output[..], iv[..])
  {
    assert SameFrom(all, all, inOff);
    hide Reached, CbcOne, Spliced, CbcNext, Cbc, Blk, SameFrom;
    ReachedNone(c, op, iv0, s, before, outOff);
    var n := 0;
    while n < blocks
      invariant n <= blocks
      invariant Reached(c, op, iv0, s, n, before, outOff, output[..], iv[..])
      invariant SameFrom(input[..], all, inOff + BLOCK * n)
    {
      CbcTurn(c, op, iv, input, inOff, output, outOff, n, iv0, s, all, before);
      n := n + 1;
    }
  }

  /**
    * aes_crypt_cbc over a buffer of whole blocks, in place or from one buffer
    * to another; iv is left holding the next chaining value.
    */
  method AesCryptCbc(c: Perm, op: Operation, length: nat, iv: array<byte>,
                     input: array<byte>, inOff: nat, output: array<byte>, outOff: nat)
    returns (ok: bool)
    requires iv.Length == BLOCK
    requires iv != input && iv != output
    requires inOff + length <= input.Length && outOff + length <= output.Length
    requires input == output ==> inOff == outOff
    modifies iv, output
    ensures ok <==> length % BLOCK == 0
    ensures !ok ==> iv[..] == old(iv[..]) && output[..] == old(output[..])
    ensures ok ==>
      var s := old(input[inOff..inOff + length]);
      && iv[..] == CbcNext(c, op, old(iv[..]), s, length / BLOCK)
      && output[..] == Spliced(old(output[..]), outOff, Cbc(c, op, old(iv[..]), s, length / BLOCK))
    ensures ok ==>
      var s, out := old(input[inOff..inOff + length]), output[outOff..outOff + length];
      && IsCbc(c, op, old(iv[..]), s, out, length / BLOCK)
      && iv[..] == if length == 0 then old(iv[..]) else (if op == Encrypt then out else s)[length - BLOCK..]
  {
    if length % BLOCK != 0 {
      return false;
    }
    ghost var s, iv0 := input[inOff..inOff + length], iv[..];
    var n := length / BLOCK;
    CbcBlocks(c, op, n, iv, input, inOff, output, outOff, iv0, s, input[..], output[..]);
    hide Cbc, CbcNext, IsCbc;
    CbcDefinition(c, op, iv0, s, output[outOff..outOff + length], n);
    ok := true;
  }
}
