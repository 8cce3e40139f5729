/** CBC over a message that arrives in pieces: what cipher_update holds back and lets out. */
module CbcStream {
  import opened BlockCipher
  import opened Modes
  import opened Padding

  /** The chaining value and the bytes still waiting for the rest of their block. */
  datatype Held = Held(iv: Block, pending: seq<byte>)

  /** How many of n bytes' blocks can go out: decryption always keeps a last block back. */
  function Blocks(op: Operation, n: nat): (m: nat)
    ensures BLOCK * m <= n
    ensures op == Encrypt ==> n < BLOCK * m + BLOCK
    ensures op == Decrypt && n > 0 ==> BLOCK * m < n <= BLOCK * m + BLOCK
  {
    if op == Encrypt || n == 0 then n / BLOCK else (n - 1) / BLOCK
  }

  predicate Waiting(op: Operation, h: Held) {
    Blocks(op, |h.pending|) == 0
  }

  /** One piece of input: the new state and the bytes let out. */
  function Feed(c: Perm, op: Operation, h: Held, input: seq<byte>): (r: (Held, seq<byte>))
  {
    var all := h.pending + input;
    var m := Blocks(op, |all|);
    (Held(CbcNext(c, op, h.iv, all, m), all[BLOCK * m..]), Cbc(c, op, h.iv, all, m))
  }

  /** Decryption holds back the last 1 to BLOCK bytes, encryption less than a block. */
  lemma HoldsBack(c: Perm, op: Operation, h: Held, input: seq<byte>)
    ensures
      var kept := |Feed(c, op, h, input).0.pending|;
      && |Feed(c, op, h, input).1| + kept == |h.pending| + |input|
      && (op == Encrypt ==> kept < BLOCK)
      && (op == Decrypt ==> kept <= BLOCK && (kept == 0 <==> h.pending + input == []))
      && Waiting(op, Feed(c, op, h, input).0)
  {
    hide Cbc, CbcNext;
  }

  lemma BlocksAdd(op: Operation, n: nat, m: nat)
    ensures
      var b := Blocks(op, n);
      Blocks(op, n + m) == b + Blocks(op, n - BLOCK * b + m)
  {
  }

  /** Two pieces in a row are as good as their concatenation. */
  lemma FeedTwice(c: Perm, op: Operation, h: Held, a: seq<byte>, b: seq<byte>)
    ensures
      var first := Feed(c, op, h, a);
      var second := Feed(c, op, first.0, b);
      Feed(c, op, h, a + b) == (second.0, first.1 + second.1)
  {
    hide Cbc, CbcNext, Blocks;
    var all := h.pending + a;
    var n := Blocks(op, |all|);
    var front, rest := all[..BLOCK * n], all[BLOCK * n..] + b;
    var m := Blocks(op, |rest|);
    assert h.pending + (a + b) == front + rest;
    assert all == front + all[BLOCK * n..];
    BlocksAdd(op, |all|, |b|);
    CbcSplit(c, op, h.iv, front, n, rest, m);
    CbcPrefix(c, op, h.iv, front, all[BLOCK * n..], n);
    assert (front + rest)[BLOCK * (n + m)..] == rest[BLOCK * m..];
  }

  /** Any number of pieces, one after the other. */
  function FeedAll(c: Perm, op: Operation, h: Held, pieces: seq<seq<byte>>): (Held, seq<byte>) {
    if pieces == [] then (h, []) else
      var k := |pieces| - 1;
      var before := FeedAll(c, op, h, pieces[..k]);
      var last := Feed(c, op, before.0, pieces[k]);
      (last.0, before.1 + last.1)
  }

  /** However a message is cut, the state and the output are those of the whole. */
  lemma {:induction false} FeedAllIsFeed(c: Perm, op: Operation, h: Held, pieces: seq<seq<byte>>)
    requires Waiting(op, h)
    ensures FeedAll(c, op, h, pieces) == Feed(c, op, h, Concat(pieces))
  {
    hide Feed;
    if pieces == [] {
      FeedNothing(c, op, h);
    } else {
      var k := |pieces| - 1;
      FeedAllIsFeed(c, op, h, pieces[..k]);
      FeedTwice(c, op, h, Concat(pieces[..k]), pieces[k]);
    }
  }

  lemma FeedNothing(c: Perm, op: Operation, h: Held)
    requires Waiting(op, h)
    ensures Feed(c, op, h, []) == (h, [])
  {
    assert h.pending + [] == h.pending;
  }

  // ---- Whole messages ----

  /** The message with its last, possibly empty, block filled up. */
  function PaddedMessage(scheme: Scheme, m: seq<byte>): (r: seq<byte>)
    requires scheme != NoPadding
    ensures |r| == BLOCK * (|m| / BLOCK) + BLOCK
  {
    var k := |m| / BLOCK;
    m[..BLOCK * k] + Padded(scheme, m[BLOCK * k..], BLOCK)
  }

  /** CBC of the whole padded message at once. */
  function Ciphertext(c: Perm, scheme: Scheme, iv: Block, m: seq<byte>): (r: seq<byte>)
    requires scheme == NoPadding ==> |m| % BLOCK == 0
  {
    if scheme == NoPadding then Cbc(c, Encrypt, iv, m, |m| / BLOCK)
    else Cbc(c, Encrypt, iv, PaddedMessage(scheme, m), |m| / BLOCK + 1)
  }

  /** The message and what the scheme puts behind it, up to whole blocks. */
  ghost predicate IsPaddedMessage(scheme: Scheme, m: seq<byte>, p: seq<byte>) {
    if scheme == NoPadding then p == m
    else |p| == BLOCK * (|m| / BLOCK) + BLOCK && p[..|m|] == m && PadsFrom(scheme, p, |m|)
  }

  lemma PaddedMessageIs(scheme: Scheme, m: seq<byte>)
    requires scheme != NoPadding
    ensures IsPaddedMessage(scheme, m, PaddedMessage(scheme, m))
  {
    var k := BLOCK * (|m| / BLOCK);
    PaddedNumbers(scheme, m[k..], BLOCK);
    hide Padded, PadsFrom;
    PadsBehind(scheme, m, PaddedMessage(scheme, m), Padded(scheme, m[k..], BLOCK), k);
  }

  /** What pads the last block pads the whole message. */
  lemma PadsBehind(scheme: Scheme, m: seq<byte>, p: seq<byte>, last: seq<byte>, k: nat)
    requires k <= |m| && |m| - k <= |last| && p == m[..k] + last && last[..|m| - k] == m[k..]
    requires PadsFrom(scheme, last, |m| - k)
    ensures p[..|m|] == m && PadsFrom(scheme, p, |m|)
  {
    hide PadNumber;
    forall i | |m| <= i < |p| ensures p[i] as nat == PadNumber(scheme, |p| - |m|, i - |m|) {
      assert p[i] == last[i - k];
    }
    assert p[..|m|] == m[..k] + last[..|m| - k];
  }

  /** The padded message, enciphered block by block (section 6.2 of NIST SP 800-38A), is the ciphertext and no other is. */
  lemma CiphertextDefinition(c: Perm, scheme: Scheme, iv: Block, m: seq<byte>, p: seq<byte>, e: seq<byte>)
    requires scheme == NoPadding ==> |m| % BLOCK == 0
    requires IsPaddedMessage(scheme, m, p) && |e| == |p|
    ensures e == Ciphertext(c, scheme, iv, m) <==> IsCbc(c, Encrypt, iv, p, e, |p| / BLOCK)
  {
    PaddedOnce(scheme, m, p);
    CiphertextIs(c, scheme, iv, m, p);
    hide *;
    WholeCbc(c, iv, p, e, |p| / BLOCK);
  }

  lemma PaddedOnce(scheme: Scheme, m: seq<byte>, p: seq<byte>)
    requires (scheme == NoPadding ==> |m| % BLOCK == 0) && IsPaddedMessage(scheme, m, p)
    ensures |p| == BLOCK * (|p| / BLOCK) && p == if scheme == NoPadding then m else PaddedMessage(scheme, m)
  {
    if scheme != NoPadding {
      PaddedMessageIs(scheme, m);
      hide PaddedMessage, PadsFrom;
      SamePadding(scheme, p, PaddedMessage(scheme, m), |m|);
    }
  }

  lemma CiphertextIs(c: Perm, scheme: Scheme, iv: Block, m: seq<byte>, p: seq<byte>)
    requires scheme == NoPadding ==> |m| % BLOCK == 0
    requires p == (if scheme == NoPadding then m else PaddedMessage(scheme, m)) && |p| == BLOCK * (|p| / BLOCK)
    ensures Ciphertext(c, scheme, iv, m) == Cbc(c, Encrypt, iv, p, |p| / BLOCK)
  {
    hide Cbc, PaddedMessage;
  }

  lemma WholeCbc(c: Perm, iv: Block, p: seq<byte>, e: seq<byte>, n: nat)
    requires |p| == |e| == BLOCK * n
    ensures e == Cbc(c, Encrypt, iv, p, n) <==> IsCbc(c, Encrypt, iv, p, e, n)
  {
    hide Cbc, IsCbc;
    CbcDefinition(c, Encrypt, iv, p, e, n);
    assert e[..BLOCK * n] == e;
  }

  /** The block cipher_finish adds when encrypting. */
  function FinalBlock(c: Perm, scheme: Scheme, h: Held): (r: seq<byte>)
    requires |h.pending| < BLOCK
    ensures |r| == if scheme == NoPadding then 0 else BLOCK
  {
    if scheme == NoPadding then [] else CbcOne(c, Encrypt, h.iv, Padded(scheme, h.pending, BLOCK))
  }

  /** Encrypting any split of a message and finishing gives CBC of the whole. */
  lemma EncryptStream(c: Perm, scheme: Scheme, iv: Block, pieces: seq<seq<byte>>)
    requires scheme == NoPadding ==> |Concat(pieces)| % BLOCK == 0
    ensures
      var r := FeedAll(c, Encrypt, Held(iv, []), pieces);
      && |r.0.pending| < BLOCK
      && (scheme == NoPadding ==> r.0.pending == [])
      && r.1 + FinalBlock(c, scheme, r.0) == Ciphertext(c, scheme, iv, Concat(pieces))
  {
    hide FeedAll, CbcOne, Concat, Feed, Padded, Cbc, CbcNext, PaddedMessage;
    var m := Concat(pieces);
    FeedAllIsFeed(c, Encrypt, Held(iv, []), pieces);
    assert [] + m == m;
    FeedIs(c, iv, m);
    if scheme != NoPadding {
      PaddedCbc(c, scheme, iv, m, |m| / BLOCK);
    }
  }

  /** The whole blocks first, and then the padded rest. */
  lemma PaddedCbc(c: Perm, scheme: Scheme, iv: Block, m: seq<byte>, k: nat)
    requires scheme != NoPadding && k == |m| / BLOCK
    ensures Cbc(c, Encrypt, iv, PaddedMessage(scheme, m), k + 1)
         == Cbc(c, Encrypt, iv, m, k) + CbcOne(c, Encrypt, CbcNext(c, Encrypt, iv, m, k), Padded(scheme, m[BLOCK * k..], BLOCK))
  {
    var front, last := m[..BLOCK * k], Padded(scheme, m[BLOCK * k..], BLOCK);
    hide Padded, Cbc, CbcNext, CbcOne;
    CbcPrefix(c, Encrypt, iv, front, m[BLOCK * k..], k);
    CbcPrefix(c, Encrypt, iv, front, last, k);
    assert m == front + m[BLOCK * k..];
    CbcUnfold(c, Encrypt, iv, front + last, k + 1);
    assert Blk(front + last, k) == last;
  }

  lemma FeedIs(c: Perm, iv: Block, m: seq<byte>)
    ensures
      var k := |m| / BLOCK;
      Feed(c, Encrypt, Held(iv, []), m)
      == (Held(CbcNext(c, Encrypt, iv, m, k), m[BLOCK * k..]), Cbc(c, Encrypt, iv, m, k))
  {
    hide Cbc, CbcNext;
    assert [] + m == m;
  }

  /** A ciphertext of at least one block, decrypted: all but the last block is out already. */
  lemma DecryptedBlocks(c: Perm, iv: Block, m: seq<byte>, k: nat)
    requires |m| == BLOCK * k + BLOCK && Inverse(c)
    ensures
      var r := Feed(c, Decrypt, Held(iv, []), Cbc(c, Encrypt, iv, m, k + 1));
      && |r.0.pending| == BLOCK
      && r.1 == m[..BLOCK * k]
      && CbcOne(c, Decrypt, r.0.iv, r.0.pending) == m[BLOCK * k..]
  {
    hide Cbc, CbcNext, CbcOne, Blk, Feed, Inverse;
    DecryptedWhole(c, iv, m, k);
    FeedWhole(c, iv, Cbc(c, Encrypt, iv, m, k + 1), k);
  }

  lemma DecryptedWhole(c: Perm, iv: Block, m: seq<byte>, k: nat)
    requires |m| == BLOCK * k + BLOCK && Inverse(c)
    ensures
      var e := Cbc(c, Encrypt, iv, m, k + 1);
      && Cbc(c, Decrypt, iv, e, k) == m[..BLOCK * k]
      && CbcOne(c, Decrypt, CbcNext(c, Decrypt, iv, e, k), Blk(e, k)) == m[BLOCK * k..]
  {
    hide Cbc, CbcNext, CbcOne, Blk, Inverse;
    var e := Cbc(c, Encrypt, iv, m, k + 1);
    DecryptedSum(c, iv, m, k);
    var last := CbcOne(c, Decrypt, CbcNext(c, Decrypt, iv, e, k), Blk(e, k));
    JoinedParts(Cbc(c, Decrypt, iv, e, k), last, m, BLOCK * k);
  }

  lemma DecryptedSum(c: Perm, iv: Block, m: seq<byte>, k: nat)
    requires |m| == BLOCK * k + BLOCK && Inverse(c)
    ensures
      var e := Cbc(c, Encrypt, iv, m, k + 1);
      Cbc(c, Decrypt, iv, e, k) + CbcOne(c, Decrypt, CbcNext(c, Decrypt, iv, e, k), Blk(e, k)) == m
  {
    hide Cbc, CbcNext, CbcOne, Blk, Inverse;
    DecryptedAll(c, iv, m, k + 1);
    CbcUnfold(c, Decrypt, iv, Cbc(c, Encrypt, iv, m, k + 1), k + 1);
  }

  lemma DecryptedAll(c: Perm, iv: Block, m: seq<byte>, n: nat)
    requires |m| == BLOCK * n && Inverse(c)
    ensures Cbc(c, Decrypt, iv, Cbc(c, Encrypt, iv, m, n), n) == m
  {
    hide Cbc, CbcNext, CbcOne, Inverse;
    CbcRoundTrip(c, iv, m, n);
    assert m[..BLOCK * n] == m;
  }

  lemma FeedWhole(c: Perm, iv: Block, e: seq<byte>, k: nat)
    requires |e| == BLOCK * k + BLOCK
    ensures Feed(c, Decrypt, Held(iv, []), e) == (Held(CbcNext(c, Decrypt, iv, e, k), Blk(e, k)), Cbc(c, Decrypt, iv, e, k))
  {
    hide Cbc, CbcNext;
    assert [] + e == e && Blocks(Decrypt, |e|) == k;
    assert Blk(e, k) == e[BLOCK * k..];
  }

  lemma JoinedParts(front: seq<byte>, last: seq<byte>, m: seq<byte>, k: nat)
    requires front + last == m && |front| == k
    ensures front == m[..k] && last == m[k..]
  {
  }

  /**
    * Decrypting any split of a ciphertext leaves exactly the padded last block
    * of the message waiting; the rest is out.
    */
  lemma DecryptStream(c: Perm, scheme: Scheme, iv: Block, m: seq<byte>, pieces: seq<seq<byte>>)
    requires Inverse(c) && scheme != NoPadding
    requires Concat(pieces) == Ciphertext(c, scheme, iv, m)
    ensures
      var r := FeedAll(c, Decrypt, Held(iv, []), pieces);
      var k := |m| / BLOCK;
      && |r.0.pending| == BLOCK
      && r.1 == m[..BLOCK * k]
      && CbcOne(c, Decrypt, r.0.iv, r.0.pending) == Padded(scheme, m[BLOCK * k..], BLOCK)
  {
    hide FeedAll, Feed, Concat, Padded, Cbc, CbcOne;
    var k := |m| / BLOCK;
    FeedAllIsFeed(c, Decrypt, Held(iv, []), pieces);
    var p := PaddedMessage(scheme, m);
    DecryptedBlocks(c, iv, p, k);
    assert p[..BLOCK * k] == m[..BLOCK * k] && p[BLOCK * k..] == Padded(scheme, m[BLOCK * k..], BLOCK);
  }

  /** What cipher_finish hands over when decrypting: the last block without its padding. */
  ghost predicate Finishes(c: Perm, scheme: Scheme, h: Held, ok: bool, last: seq<byte>) {
    if |h.pending| != BLOCK then
      && ok == (scheme == NoPadding && h.pending == [])
      && (ok ==> last == [])
    else
      var b := CbcOne(c, Decrypt, h.iv, h.pending);
      exists len: int :: Unpads(scheme, b, ok, len) && (ok ==> 0 <= len <= BLOCK && last == b[..len])
  }

  /**
    * Streaming round trip: whatever the message, the padding (zeros apart) and
    * the two ways of cutting, decryption accepts and returns the message.
    */
  lemma StreamRoundTrip(c: Perm, scheme: Scheme, iv: Block, m: seq<byte>, pieces: seq<seq<byte>>,
                        ok: bool, last: seq<byte>)
    requires Inverse(c) && scheme != NoPadding && scheme != ZeroPad
    requires Concat(pieces) == Ciphertext(c, scheme, iv, m)
    requires Finishes(c, scheme, FeedAll(c, Decrypt, Held(iv, []), pieces).0, ok, last)
    ensures ok && FeedAll(c, Decrypt, Held(iv, []), pieces).1 + last == m
  {
    DecryptStream(c, scheme, iv, m, pieces);
    hide FeedAll, Concat, Ciphertext, CbcOne, Unpads, Padded;
    var r := FeedAll(c, Decrypt, Held(iv, []), pieces);
    var tail := m[BLOCK * (|m| / BLOCK)..];
    var b := Padded(scheme, tail, BLOCK);
    var len: int :| Unpads(scheme, b, ok, len) && (ok ==> 0 <= len <= BLOCK && last == b[..len]);
    PaddingRoundTrip(scheme, tail, BLOCK, ok, len);
  }

  /**
    * With zero padding the message comes back exactly when it fills its last
    * block or does not end in a zero byte.
    */
  lemma ZeroPadStreamExact(c: Perm, iv: Block, m: seq<byte>, pieces: seq<seq<byte>>, ok: bool, last: seq<byte>)
    requires Inverse(c)
    requires Concat(pieces) == Ciphertext(c, ZeroPad, iv, m)
    requires Finishes(c, ZeroPad, FeedAll(c, Decrypt, Held(iv, []), pieces).0, ok, last)
    ensures ok
    ensures FeedAll(c, Decrypt, Held(iv, []), pieces).1 + last == m
            <==> |m| % BLOCK == 0 || m[|m| - 1] != 0
  {
    hide FeedAll, Concat, Ciphertext, CbcOne, Padded, Finishes, Inverse;
    DecryptStream(c, ZeroPad, iv, m, pieces);
    var k := BLOCK * (|m| / BLOCK);
    ZeroPadFinish(c, FeedAll(c, Decrypt, Held(iv, []), pieces).0, m[k..], ok, last);
    FrontAndTail(m, k, |last|);
  }

  /** The end of a zero-padded message: some beginning of what is left, all of it unless that ends in a zero byte. */
  lemma ZeroPadFinish(c: Perm, h: Held, tail: seq<byte>, ok: bool, last: seq<byte>)
    requires |h.pending| == BLOCK && |tail| < BLOCK
    requires CbcOne(c, Decrypt, h.iv, h.pending) == Padded(ZeroPad, tail, BLOCK)
    requires Finishes(c, ZeroPad, h, ok, last)
    ensures ok && |last| <= |tail| && last == tail[..|last|]
    ensures |last| == |tail| <==> tail == [] || tail[|tail| - 1] != 0
  {
    hide CbcOne, Unpads, Padded;
    var b := Padded(ZeroPad, tail, BLOCK);
    var len: int :| Unpads(ZeroPad, b, ok, len) && (ok ==> 0 <= len <= BLOCK && last == b[..len]);
    ZeroPaddingExact(tail, BLOCK, ok, len);
    assert b[..len] == b[..|tail|][..len] == tail[..len];
  }

  lemma FrontAndTail(m: seq<byte>, k: nat, len: nat)
    requires k + len <= |m|
    ensures m[..k] + m[k..][..len] == m <==> len == |m| - k
    ensures k < |m| ==> m[k..][|m| - k - 1] == m[|m| - 1]
  {
    assert |m[..k] + m[k..][..len]| == k + len;
  }

  /** Without padding, whole blocks come back, the empty message included. */
  lemma NoPaddingStream(c: Perm, iv: Block, m: seq<byte>, pieces: seq<seq<byte>>, ok: bool, last: seq<byte>)
    requires Inverse(c) && |m| % BLOCK == 0
    requires Concat(pieces) == Ciphertext(c, NoPadding, iv, m)
    requires Finishes(c, NoPadding, FeedAll(c, Decrypt, Held(iv, []), pieces).0, ok, last)
    ensures ok && FeedAll(c, Decrypt, Held(iv, []), pieces).1 + last == m
  {
    hide FeedAll, Concat, CbcOne;
    FeedAllIsFeed(c, Decrypt, Held(iv, []), pieces);
    if m == [] {
      FeedNothing(c, Decrypt, Held(iv, []));
    } else {
      hide Feed, Cbc;
      DecryptedBlocks(c, iv, m, |m| / BLOCK - 1);
    }
  }
}
