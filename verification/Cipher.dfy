/** The cipher context of cipher.c: cipher_update, cipher_finish and cipher_crypt. */
module Cipher {
  import opened BlockCipher
  import opened Modes
  import opened Padding
  import opened CbcStream
  import StreamModes
  import StreamLoops

  datatype Mode = CBC | CFB | CTR

  datatype Error = None | BadInputData | FullBlockExpected | InvalidPadding

  lemma FeedSmall(c: Perm, op: Operation, h: Held, s: seq<byte>)
    requires Blocks(op, |h.pending| + |s|) == 0
    ensures Feed(c, op, h, s) == (Held(h.iv, h.pending + s), [])
  {
    assert (h.pending + s)[BLOCK * 0..] == h.pending + s;
  }

  /** The first block may go out by itself, the rest after it. */
  lemma FeedFront(c: Perm, op: Operation, h: Held, s: seq<byte>)
    requires Blocks(op, |h.pending| + |s|) > 0
    ensures
      var all := h.pending + s;
      var second := Feed(c, op, Held(CbcNext(c, op, h.iv, all[..BLOCK], 1), []), all[BLOCK..]);
      Feed(c, op, h, s) == (second.0, Cbc(c, op, h.iv, all[..BLOCK], 1) + second.1)
  {
    var all := h.pending + s;
    BlocksLess(op, |all|);
    var front, rest := all[..BLOCK], all[BLOCK..];
    var m := Blocks(op, |rest|);
    hide Cbc, CbcNext, Blocks, Feed;
    assert |rest| == |all| - BLOCK && Blocks(op, |all|) == 1 + m;
    FeedIs(c, op, h, s, all);
    FeedAlone(c, op, CbcNext(c, op, h.iv, front, 1), rest);
    FrontFirst(c, op, h.iv, all, m);
  }

  lemma FrontFirst(c: Perm, op: Operation, iv: Block, all: seq<byte>, m: nat)
    requires BLOCK + BLOCK * m <= |all|
    ensures
      var iv1 := CbcNext(c, op, iv, all[..BLOCK], 1);
      && CbcNext(c, op, iv, all, 1 + m) == CbcNext(c, op, iv1, all[BLOCK..], m)
      && Cbc(c, op, iv, all, 1 + m) == Cbc(c, op, iv, all[..BLOCK], 1) + Cbc(c, op, iv1, all[BLOCK..], m)
      && all[BLOCK * (1 + m)..] == all[BLOCK..][BLOCK * m..]
  {
    hide Cbc, CbcNext;
    CbcSplit(c, op, iv, all[..BLOCK], 1, all[BLOCK..], m);
    assert all[..BLOCK] + all[BLOCK..] == all;
    DropDrop(all, BLOCK, BLOCK * m);
  }

  lemma FeedIs(c: Perm, op: Operation, h: Held, s: seq<byte>, all: seq<byte>)
    requires all == h.pending + s
    ensures
      var m := Blocks(op, |all|);
      Feed(c, op, h, s) == (Held(CbcNext(c, op, h.iv, all, m), all[BLOCK * m..]), Cbc(c, op, h.iv, all, m))
  {
    hide Cbc, CbcNext, Blocks;
  }

  lemma FeedAlone(c: Perm, op: Operation, iv: Block, s: seq<byte>)
    ensures
      var m := Blocks(op, |s|);
      Feed(c, op, Held(iv, []), s) == (Held(CbcNext(c, op, iv, s, m), s[BLOCK * m..]), Cbc(c, op, iv, s, m))
  {
    assert [] + s == s;
    FeedIs(c, op, Held(iv, []), s, s);
  }

  lemma DropDrop(s: seq<byte>, i: nat, j: nat)
    requires i + j <= |s|
    ensures s[i..][j..] == s[i + j..]
  {
  }

  lemma BlocksLess(op: Operation, n: nat)
    requires Blocks(op, n) > 0
    ensures n >= BLOCK && Blocks(op, n) == 1 + Blocks(op, n - BLOCK)
  {
  }

  /** Nothing waits: the end of r is kept, what is before it goes out. */
  lemma FeedFresh(c: Perm, op: Operation, iv: Block, r: seq<byte>, keep: nat)
    requires keep <= |r| && (|r| - keep) % BLOCK == 0 && (|r| - keep) / BLOCK == Blocks(op, |r|)
    ensures
      var front := r[..|r| - keep];
      Feed(c, op, Held(iv, []), r)
      == (Held(CbcNext(c, op, iv, front, |front| / BLOCK), r[|r| - keep..]), Cbc(c, op, iv, front, |front| / BLOCK))
  {
    FeedAlone(c, op, iv, r);
    hide Cbc, CbcNext, Blocks, Feed;
    var front := r[..|r| - keep];
    assert r == front + r[|r| - keep..];
    CbcPrefix(c, op, iv, front, r[|r| - keep..], |front| / BLOCK);
  }

  lemma KeepIs(op: Operation, n: nat, keep: nat)
    requires n > 0
    requires keep == if n % BLOCK == 0 && op == Decrypt then BLOCK else n % BLOCK
    ensures keep <= n && (n - keep) % BLOCK == 0 && (n - keep) / BLOCK == Blocks(op, n) && Blocks(op, keep) == 0
  {
  }

  class Context {
    const perm: Perm
    const iv: array<byte>
    const unprocessedData: array<byte>
    var mode: Mode
    var operation: Operation
    var padding: Scheme
    var unprocessedLen: nat

    ghost predicate Valid()
      reads this, iv, unprocessedData
    {
      && iv.Length == BLOCK == unprocessedData.Length
      && iv != unprocessedData
      && unprocessedLen <= BLOCK
      && if mode == CBC then Blocks(operation, unprocessedLen) == 0 else unprocessedLen < BLOCK
    }

    /** What CBC carries from one call to the next. */
    ghost function Cached(): Held
      requires Valid()
      reads this, iv, unprocessedData
    {
      Held(iv[..], unprocessedData[..unprocessedLen])
    }

    /** cipher_setkey, cipher_set_iv and cipher_reset with an iv of one block. */
    constructor (perm: Perm, mode: Mode, operation: Operation, padding: Scheme, iv0: Block)
      ensures Valid() && fresh(iv) && fresh(unprocessedData)
      ensures this.perm == perm && this.mode == mode && this.operation == operation && this.padding == padding
      ensures iv[..] == iv0 && unprocessedLen == 0
    {
      this.perm, this.mode, this.operation, this.padding := perm, mode, operation, padding;
      iv := new byte[BLOCK](i requires 0 <= i < BLOCK => iv0[i]);
      unprocessedData := new byte[BLOCK];
      unprocessedLen := 0;
    }

    /** The cached bytes and the first of the input make a block, which goes out. */
    method FlushCached(input: array<byte>, inOff: nat, output: array<byte>, outOff: nat,
                       ghost h: Held, ghost s: seq<byte>, ghost before: seq<byte>)
      requires Valid() && mode == CBC && h == Cached() && unprocessedLen > 0
      requires input != iv && input != unprocessedData && output != iv && output != unprocessedData
      requires inOff + |s| <= input.Length && s == input[inOff..inOff + |s|] && before == output[..]
      requires unprocessedLen + |s| >= BLOCK && outOff + BLOCK <= output.Length
      modifies this`unprocessedLen, iv, unprocessedData, output
      ensures Valid() && unprocessedLen == 0
      ensures
        var b := (h.pending + s)[..BLOCK];
        && iv[..] == CbcNext(perm, operation, h.iv, b, 1)
        && output[..] == Spliced(before, outOff, Cbc(perm, operation, h.iv, b, 1))
    {
      hide Cbc, CbcNext, Spliced;
      var copyLen := BLOCK - unprocessedLen;
      ghost var was := unprocessedData[..];
      SliceOfSlice(input[..], inOff, |s|, 0, copyLen);
      Put(unprocessedData, unprocessedLen, input[inOff..inOff + copyLen]);
      JoinedBlock(was, h.pending, s);
      var ok := AesCryptCbc(perm, operation, BLOCK, iv, unprocessedData, 0, output, outOff);
      unprocessedLen := 0;
    }

    /** The end of the input is cached, the full blocks before it go out. */
    method RunFresh(input: array<byte>, inOff: nat, ilen: nat, output: array<byte>, outOff: nat,
                    ghost h: Held, ghost s: seq<byte>, ghost before: seq<byte>)
      returns (olen: nat)
      requires CbcCall(input, inOff, ilen, output, outOff, h, s, before) && unprocessedLen == 0
      modifies this`unprocessedLen, iv, unprocessedData, output
      ensures CbcDone(output, outOff, h, s, before, olen)
    {
      hide Cbc, CbcNext, Spliced, Blocks, Feed;
      var n := CacheEnd(input, inOff, ilen, s);
      FeedFresh(perm, operation, h.iv, s, ilen - n);
      SliceOfSlice(input[..], inOff, ilen, 0, n);
      olen := 0;
      if n != 0 {
        var ok := AesCryptCbc(perm, operation, n, iv, input, inOff, output, outOff);
        olen := n;
      } else {
        NothingOut(perm, operation, h.iv, s, before, outOff);
      }
    }

    /** Cache the final, incomplete block, or a full one when decrypting; n bytes are left. */
    method CacheEnd(input: array<byte>, inOff: nat, ilen: nat, ghost s: seq<byte>) returns (n: nat)
      requires Valid() && mode == CBC && unprocessedLen == 0 && input != unprocessedData
      requires inOff + ilen <= input.Length && s == input[inOff..inOff + ilen]
      modifies this`unprocessedLen, unprocessedData
      ensures Valid() && n <= ilen && n % BLOCK == 0 && n / BLOCK == Blocks(operation, ilen)
      ensures unprocessedData[..unprocessedLen] == s[n..]
    {
      hide Spliced;
      n := ilen;
      if ilen != 0 {
        var copyLen := ilen % BLOCK;
        if copyLen == 0 && operation == Decrypt {
          copyLen := BLOCK;
        }
        KeepIs(operation, ilen, copyLen);
        hide Blocks;
        SliceOfSlice(input[..], inOff, ilen, ilen - copyLen, copyLen);
        Put(unprocessedData, 0, input[inOff + ilen - copyLen..inOff + ilen]);
        unprocessedLen := copyLen;
        n := ilen - copyLen;
      }
    }

    /** What the CBC branch of cipher_update is called with: h, s and before are snapshots. */
    ghost predicate CbcCall(input: array<byte>, inOff: nat, ilen: nat, output: array<byte>, outOff: nat,
                            h: Held, s: seq<byte>, before: seq<byte>)
      reads this, iv, unprocessedData, input, output
    {
      && Valid() && mode == CBC && h == Cached()
      && input != iv && input != unprocessedData && output != iv && output != unprocessedData
      && inOff + ilen <= input.Length && s == input[inOff..inOff + ilen] && before == output[..]
      && outOff + unprocessedLen + ilen <= output.Length
      && (input == output ==> inOff == outOff && unprocessedLen == 0)
    }

    /** What the CBC branch of cipher_update leaves: the state and the output of feeding s. */
    ghost predicate CbcDone(output: array<byte>, outOff: nat, h: Held, s: seq<byte>, before: seq<byte>, olen: nat)
      reads this, iv, unprocessedData, output
    {
      var r := Feed(perm, operation, h, s);
      && Valid() && mode == CBC && Cached() == r.0
      && olen == |r.1| <= |h.pending| + |s| && outOff + olen <= |before|
      && output[..] == Spliced(before, outOff, r.1)
    }

    /** The CBC branch of cipher_update. */
    method UpdateCbc(input: array<byte>, inOff: nat, ilen: nat, output: array<byte>, outOff: nat,
                     ghost h: Held, ghost s: seq<byte>, ghost before: seq<byte>)
      returns (olen: nat)
      requires CbcCall(input, inOff, ilen, output, outOff, h, s, before)
      modifies this`unprocessedLen, iv, unprocessedData, output
      ensures CbcDone(output, outOff, h, s, before, olen)
    {
      BlocksWhenSmall(operation, ilen + unprocessedLen);
      hide CbcCall, CbcDone, Cbc, CbcNext, Spliced, Blocks, Feed;
      if || (operation == Decrypt && ilen + unprocessedLen <= BLOCK)
         || (operation == Encrypt && ilen + unprocessedLen < BLOCK) {
        olen := CacheInput(input, inOff, ilen, output, outOff, h, s, before);
      } else if unprocessedLen != 0 {
        olen := UpdateCached(input, inOff, ilen, output, outOff, h, s, before);
      } else {
        olen := RunFresh(input, inOff, ilen, output, outOff, h, s, before);
      }
    }

    /** Not enough for a full block: all of the input is cached. */
    method CacheInput(input: array<byte>, inOff: nat, ilen: nat, output: array<byte>, outOff: nat,
                      ghost h: Held, ghost s: seq<byte>, ghost before: seq<byte>)
      returns (olen: nat)
      requires CbcCall(input, inOff, ilen, output, outOff, h, s, before)
      requires Blocks(operation, ilen + unprocessedLen) == 0
      modifies this`unprocessedLen, unprocessedData
      ensures CbcDone(output, outOff, h, s, before, olen)
    {
      hide CbcCall, CbcDone, Feed, Cbc, CbcNext, Blocks, Spliced;
      CopyToCache(input, inOff, ilen, output, outOff, h, s, before);
      CachedIsFed(output, outOff, h, s, before);
      olen := 0;
    }

    lemma CachedIsFed(output: array<byte>, outOff: nat, h: Held, s: seq<byte>, before: seq<byte>)
      requires Valid() && mode == CBC && Cached() == Held(h.iv, h.pending + s)
      requires Blocks(operation, |h.pending| + |s|) == 0 && outOff <= |before| && before == output[..]
      ensures CbcDone(output, outOff, h, s, before, 0)
    {
      FeedSmall(perm, operation, h, s);
      SplicedNothing(before, outOff);
      hide Feed, Cbc, CbcNext, Blocks, Spliced;
    }

    /** The memcpy behind the bytes that are cached already. */
    method CopyToCache(input: array<byte>, inOff: nat, ilen: nat, output: array<byte>, outOff: nat,
                       ghost h: Held, ghost s: seq<byte>, ghost before: seq<byte>)
      requires CbcCall(input, inOff, ilen, output, outOff, h, s, before)
      requires Blocks(operation, ilen + unprocessedLen) == 0
      modifies this`unprocessedLen, unprocessedData
      ensures Valid() && Cached() == Held(h.iv, h.pending + s)
      ensures mode == CBC && Blocks(operation, |h.pending| + |s|) == 0
      ensures outOff <= |before| && before == output[..]
    {
      BlocksWhenSmall(operation, ilen + unprocessedLen);
      hide Blocks, Spliced;
      ghost var was := unprocessedData[..];
      Put(unprocessedData, unprocessedLen, input[inOff..inOff + ilen]);
      CachedMore(was, h.pending, s);
      unprocessedLen := unprocessedLen + ilen;
    }

    /** There is a cached part and enough input to complete it. */
    method UpdateCached(input: array<byte>, inOff: nat, ilen: nat, output: array<byte>, outOff: nat,
                        ghost h: Held, ghost s: seq<byte>, ghost before: seq<byte>)
      returns (olen: nat)
      requires CbcCall(input, inOff, ilen, output, outOff, h, s, before) && unprocessedLen > 0
      requires Blocks(operation, ilen + unprocessedLen) > 0
      modifies this`unprocessedLen, iv, unprocessedData, output
      ensures CbcDone(output, outOff, h, s, before, olen)
    {
      hide Cbc, CbcNext, Spliced, Feed;
      var copyLen := BLOCK - unprocessedLen;
      FeedFront(perm, operation, h, s);
      ghost var out := Cbc(perm, operation, h.iv, (h.pending + s)[..BLOCK], 1);
      FlushCached(input, inOff, output, outOff, h, s, before);
      hide Blocks;
      ghost var rest := s[copyLen..];
      BehindBlock(h.pending, s, copyLen);
      SliceOfSlice(input[..], inOff, ilen, copyLen, ilen - copyLen);
      EmptyPending(unprocessedData[..]);
      ghost var h2 := Cached();
      SplicedTwice(before, outOff, out, FedOut(perm, operation, h2, rest, ilen - copyLen));
      olen := RunFresh(input, inOff + copyLen, ilen - copyLen, output, outOff + BLOCK, h2, rest, output[..]);
      olen := BLOCK + olen;
    }

    ghost function StreamState(): StreamModes.State
      requires Valid()
      reads this, iv, unprocessedData
    {
      StreamModes.State(iv[..], unprocessedData[..], unprocessedLen)
    }

    ghost function StreamMode(): StreamModes.Mode
      reads this
    {
      if mode == CFB then StreamModes.CFB else StreamModes.CTR
    }

    /** The CFB and CTR branches of cipher_update. */
    method UpdateStream(input: array<byte>, inOff: nat, ilen: nat, output: array<byte>, outOff: nat)
      returns (olen: nat)
      requires Valid() && mode != CBC
      requires input != iv && input != unprocessedData && output != iv && output != unprocessedData
      requires inOff + ilen <= input.Length && outOff + ilen <= output.Length
      requires input == output ==> inOff == outOff
      modifies this`unprocessedLen, iv, unprocessedData, output
      ensures Valid() && olen == ilen
      ensures
        var s := old(input[inOff..inOff + ilen]);
        var r := StreamModes.Run(perm, StreamMode(), operation, old(StreamState()), s, ilen);
        && StreamState() == r.0
        && output[..] == Spliced(old(output[..]), outOff, r.1)
    {
      hide StreamModes.Run, Spliced;
      if mode == CFB {
        unprocessedLen := StreamLoops.AesCryptCfb128(perm, operation, ilen, unprocessedLen, iv, input, inOff,
                                                     output, outOff, unprocessedData[..]);
      } else {
        unprocessedLen := StreamLoops.AesCryptCtr(perm, operation, ilen, unprocessedLen, iv, unprocessedData,
                                                  input, inOff, output, outOff);
      }
      return ilen;
    }

    /** cipher_update. */
    method Update(input: array<byte>, inOff: nat, ilen: nat, output: array<byte>, outOff: nat)
      returns (err: Error, olen: nat)
      requires Valid()
      requires input != iv && input != unprocessedData && output != iv && output != unprocessedData
      requires inOff + ilen <= input.Length && outOff + unprocessedLen + ilen <= output.Length
      requires input == output ==> inOff == outOff
      modifies this`unprocessedLen, iv, unprocessedData, output
      ensures Valid()
      ensures err == if input == output && (old(unprocessedLen) != 0 || ilen % BLOCK != 0) then BadInputData else None
      ensures err != None ==> olen == 0 && StreamState() == old(StreamState()) && output[..] == old(output[..])
      ensures err == None && mode == CBC ==>
        var r := Feed(perm, operation, old(Cached()), old(input[inOff..inOff + ilen]));
        && Cached() == r.0
        && olen == |r.1| <= old(unprocessedLen) + ilen
        && output[..] == Spliced(old(output[..]), outOff, r.1)
      ensures err == None && mode != CBC ==>
        var r := StreamModes.Run(perm, StreamMode(), operation, old(StreamState()),
                                 old(input[inOff..inOff + ilen]), ilen);
        && StreamState() == r.0
        && olen == ilen
        && output[..] == Spliced(old(output[..]), outOff, r.1)
    {
      hide StreamModes.Run, Spliced, Feed;
      if input == output && (unprocessedLen != 0 || ilen % BLOCK != 0) {
        return BadInputData, 0;
      }
      if mode == CBC {
        olen := UpdateCbc(input, inOff, ilen, output, outOff, Cached(), input[inOff..inOff + ilen], output[..]);
      } else {
        olen := UpdateStream(input, inOff, ilen, output, outOff);
      }
      err := None;
    }

    /** The encrypting half of cipher_finish in CBC mode. */
    method FinishEncrypt(output: array<byte>, outOff: nat, ghost h: Held, ghost before: seq<byte>)
      returns (err: Error, olen: nat)
      requires Valid() && mode == CBC && operation == Encrypt && h == Cached()
      requires output != iv && output != unprocessedData
      requires outOff + BLOCK <= output.Length && before == output[..]
      modifies iv, unprocessedData, output
      ensures Valid()
      ensures err == if padding == NoPadding && h.pending != [] then FullBlockExpected else None
      ensures err != None ==> olen == 0 && output[..] == before
      ensures err == None ==>
        && olen == |FinalBlock(perm, padding, h)|
        && output[..] == Spliced(before, outOff, FinalBlock(perm, padding, h))
    {
      hide Cbc, CbcNext, CbcOne, Spliced, Padded;
      NothingOut(perm, operation, h.iv, [], before, outOff);
      if padding == NoPadding {
        return if unprocessedLen != 0 then FullBlockExpected else None, 0;
      }
      ghost var was := unprocessedData[..];
      AddPadding(padding, unprocessedData, BLOCK, unprocessedLen);
      SplicedWhole(was, Padded(padding, h.pending, BLOCK));
      OneBlock(perm, operation, h.iv, unprocessedData[..]);
      var ok := AesCryptCbc(perm, operation, BLOCK, iv, unprocessedData, 0, output, outOff);
      return None, BLOCK;
    }

    /** The decrypting half of cipher_finish in CBC mode. */
    method FinishDecrypt(output: array<byte>, outOff: nat, ghost h: Held, ghost before: seq<byte>)
      returns (err: Error, olen: nat)
      requires Valid() && mode == CBC && operation == Decrypt && h == Cached()
      requires output != iv && output != unprocessedData
      requires outOff + BLOCK <= output.Length && before == output[..]
      modifies iv, unprocessedData, output
      ensures Valid()
      ensures |h.pending| != BLOCK ==>
        && err == (if padding == NoPadding && h.pending == [] then None else FullBlockExpected)
        && olen == 0 && output[..] == before
      ensures |h.pending| == BLOCK ==>
        var b := CbcOne(perm, Decrypt, h.iv, h.pending);
        && (err == None || err == InvalidPadding)
        && Unpads(padding, b, err == None, olen)
        && (err == None ==> olen <= BLOCK)
        && output[..] == Spliced(before, outOff, b)
    {
      hide Cbc, CbcNext, CbcOne, Spliced, Unpads;
      if unprocessedLen != BLOCK {
        if padding == NoPadding && unprocessedLen == 0 {
          return None, 0;
        }
        return FullBlockExpected, 0;
      }
      OneBlock(perm, operation, h.iv, unprocessedData[..]);
      var ok := AesCryptCbc(perm, operation, BLOCK, iv, unprocessedData, 0, output, outOff);
      var accepted;
      accepted, olen := GetPadding(padding, output[outOff..outOff + BLOCK]);
      err := if accepted then None else InvalidPadding;
    }

    /** cipher_finish. */
    method Finish(output: array<byte>, outOff: nat) returns (err: Error, olen: nat)
      requires Valid()
      requires output != iv && output != unprocessedData && outOff + BLOCK <= output.Length
      modifies iv, unprocessedData, output
      ensures Valid()
      ensures mode != CBC ==> err == None && olen == 0
      ensures mode != CBC ==> StreamState() == old(StreamState()) && output[..] == old(output[..])
      ensures mode == CBC && operation == Encrypt ==>
        var h := old(Cached());
        && err == (if padding == NoPadding && h.pending != [] then FullBlockExpected else None)
        && (err == None ==>
              && olen == |FinalBlock(perm, padding, h)|
              && output[..] == Spliced(old(output[..]), outOff, FinalBlock(perm, padding, h)))
      ensures mode == CBC && operation == Decrypt ==>
        && (err == None ==> olen <= BLOCK)
        && Finishes(perm, padding, old(Cached()), err == None,
                    if err == None then output[outOff..outOff + olen] else [])
        && output[..outOff] == old(output[..outOff])
        && (err != None ==> err == if old(unprocessedLen) == BLOCK then InvalidPadding else FullBlockExpected)
    {
      hide Spliced, FinalBlock, CbcOne, Unpads;
      olen := 0;
      if mode == CFB || mode == CTR {
        return None, 0;
      }
      ghost var h, before := Cached(), output[..];
      if operation == Encrypt {
        err, olen := FinishEncrypt(output, outOff, h, before);
      } else {
        err, olen := FinishDecrypt(output, outOff, h, before);
        if |h.pending| == BLOCK {
          ghost var b := CbcOne(perm, Decrypt, h.iv, h.pending);
          assert output[outOff..outOff + BLOCK] == b;
          if err == None {
            SliceOfSlice(output[..], outOff, BLOCK, 0, olen);
          }
        }
      }
    }

    /** cipher_set_iv with an iv of one block, then cipher_reset. */
    method Restart(iv0: array<byte>)
      requires Valid() && iv0.Length == BLOCK && iv0 != iv && iv0 != unprocessedData
      modifies this`unprocessedLen, iv
      ensures Valid() && Cached() == Held(iv0[..], []) && unprocessedLen == 0
      ensures StreamState() == StreamModes.State(iv0[..], unprocessedData[..], 0)
    {
      ghost var was := iv[..];
      Put(iv, 0, iv0[..]);
      SplicedWhole(was, iv0[..]);
      unprocessedLen := 0;
    }

    /** What cipher_update has left for cipher_finish in cipher_crypt. */
    ghost predicate Updated(output: array<byte>, outOff: nat, olen: nat, iv0: Block, m: seq<byte>, before: seq<byte>)
      reads this, iv, unprocessedData, output
    {
      && Valid() && mode == CBC && output != iv && output != unprocessedData
      && outOff + |m| + BLOCK <= output.Length == |before|
      && CbcDone(output, outOff, Held(iv0, []), m, before, olen)
    }

    lemma UpdatedIs(output: array<byte>, outOff: nat, olen: nat, iv0: Block, m: seq<byte>, before: seq<byte>)
      requires Updated(output, outOff, olen, iv0, m, before)
      ensures
        var r := Feed(perm, operation, Held(iv0, []), m);
        && Valid() && mode == CBC && output != iv && output != unprocessedData
        && Cached() == r.0 && olen == |r.1| && outOff + olen + BLOCK <= output.Length
        && output[outOff..outOff + olen] == r.1
    {
      hide Feed;
    }

    /** The end of cipher_crypt, encrypting with CBC. */
    method FinishEncryption(output: array<byte>, outOff: nat, olen: nat, ghost iv0: Block, ghost m: seq<byte>, ghost before: seq<byte>)
      returns (err: Error, total: nat)
      requires Updated(output, outOff, olen, iv0, m, before) && operation == Encrypt
      modifies iv, unprocessedData, output
      ensures Valid() && Encrypts(perm, padding, iv0, m, err, before, outOff, total, output[..])
    {
      ghost var mid := output[..];
      hide Spliced, Feed, FinalBlock, CbcOne, Finishes, Blocks, Unpads, Decrypts, Encrypts;
      var n;
      err, n := Finish(output, outOff + olen);
      EncryptsInTwo(perm, padding, iv0, m, err, before, outOff, mid, output[..]);
      total := if err == None then olen + n else olen;
    }

    /** cipher_finish, decrypting with CBC. */
    method FinishLast(output: array<byte>, p: nat, ghost h: Held, ghost mid: seq<byte>) returns (err: Error, n: nat)
      requires Valid() && mode == CBC && operation == Decrypt && Cached() == h && mid == output[..]
      requires output != iv && output != unprocessedData && p + BLOCK <= output.Length
      modifies iv, unprocessedData, output
      ensures Valid() && output[..p] == mid[..p] && (err == None ==> n <= BLOCK)
      ensures Finishes(perm, padding, h, err == None, if err == None then output[p..p + n] else [])
    {
      hide Finishes, Cached, StreamState, StreamMode, Spliced, FinalBlock;
      err, n := Finish(output, p);
    }

    /** The end of cipher_crypt, decrypting with CBC. */
    method FinishDecryption(output: array<byte>, outOff: nat, olen: nat, ghost iv0: Block, ghost m: seq<byte>, ghost before: seq<byte>)
      returns (err: Error, total: nat)
      requires Updated(output, outOff, olen, iv0, m, before) && operation == Decrypt
      modifies iv, unprocessedData, output
      ensures Valid() && (err == None ==> outOff + total <= output.Length)
      ensures Decrypts(perm, padding, iv0, m, err == None, if err == None then output[outOff..outOff + total] else [])
    {
      hide *;
      UpdatedIs(output, outOff, olen, iv0, m, before);
      ghost var mid, r := output[..], Feed(perm, Decrypt, Held(iv0, []), m);
      assert mid[outOff..outOff + olen] == r.1;
      var n;
      err, n := FinishLast(output, outOff + olen, r.0, mid);
      ghost var now := output[..];
      total := if err == None then olen + n else olen;
      DecryptsInTwo(perm, padding, iv0, m, r, err == None, mid, now, outOff, n);
    }

    /** cipher_crypt: one message in one go, in place only when it fills its blocks. */
    method Crypt(iv0: array<byte>, input: array<byte>, inOff: nat, ilen: nat, output: array<byte>, outOff: nat)
      returns (err: Error, olen: nat)
      requires Valid() && iv0.Length == BLOCK && iv0 != iv && iv0 != unprocessedData
      requires input != iv && input != unprocessedData && output != iv && output != unprocessedData
      requires input == output ==> inOff == outOff
      requires inOff + ilen <= input.Length && outOff + ilen + BLOCK <= output.Length
      modifies this`unprocessedLen, iv, unprocessedData, output
      ensures Valid()
      ensures input == output && ilen % BLOCK != 0 ==> err == BadInputData && olen == 0 && output[..] == old(output[..])
      ensures (input != output || ilen % BLOCK == 0) && mode != CBC ==>
        && err == None && olen == ilen
        && output[..] == Spliced(old(output[..]), outOff,
             StreamModes.Run(perm, StreamMode(), operation,
                             StreamModes.State(old(iv0[..]), old(unprocessedData[..]), 0), old(input[inOff..inOff + ilen]), ilen).1)
      ensures (input != output || ilen % BLOCK == 0) && mode == CBC && operation == Encrypt ==>
        Encrypts(perm, padding, old(iv0[..]), old(input[inOff..inOff + ilen]), err, old(output[..]), outOff, olen, output[..])
      ensures (input != output || ilen % BLOCK == 0) && mode == CBC && operation == Decrypt ==>
        && (err == None ==> outOff + olen <= output.Length)
        && Decrypts(perm, padding, old(iv0[..]), old(input[inOff..inOff + ilen]), err == None,
                    if err == None then output[outOff..outOff + olen] else [])
    {
      hide StreamModes.Run, Spliced, Feed, Blocks, Decrypts, Encrypts;
      ghost var m, before, iv1 := input[inOff..inOff + ilen], output[..], iv0[..];
      Restart(iv0);
      err, olen := Update(input, inOff, ilen, output, outOff);
      if err != None { return; }
      if mode == CBC {
        if operation == Encrypt {
          err, olen := FinishEncryption(output, outOff, olen, iv1, m, before);
        } else {
          err, olen := FinishDecryption(output, outOff, olen, iv1, m, before);
        }
      } else {
        var n;
        err, n := Finish(output, outOff + olen);
        olen := olen + n;
      }
    }
  }

  lemma OneBlock(c: Perm, op: Operation, iv: Block, b: Block)
    ensures b[0..0 + BLOCK] == b
    ensures Cbc(c, op, iv, b, 1) == CbcOne(c, op, iv, b)
  {
    hide CbcOne;
    assert Cbc(c, op, iv, b, 0) == [] && CbcNext(c, op, iv, b, 0) == iv;
    assert Blk(b, 0) == b;
  }

  lemma EmptyPending(data: seq<byte>)
    ensures data[..0] == []
  {
  }

  /** The output of a piece, which is at most what came in. */
  ghost function FedOut(c: Perm, op: Operation, h: Held, r: seq<byte>, n: nat): (out: seq<byte>)
    requires h.pending == [] && |r| == n
    ensures out == Feed(c, op, h, r).1 && |out| <= n
  {
    Feed(c, op, h, r).1
  }

  lemma BlocksWhenSmall(op: Operation, n: nat)
    ensures Blocks(op, n) == 0 <==> if op == Encrypt then n < BLOCK else n <= BLOCK
  {
  }

  lemma SplicedNothing(before: seq<byte>, off: nat)
    requires off <= |before|
    ensures Spliced(before, off, []) == before
  {
  }

  lemma NothingOut(c: Perm, op: Operation, iv: Block, s: seq<byte>, before: seq<byte>, off: nat)
    requires off <= |before|
    ensures s[..0] == []
    ensures CbcNext(c, op, iv, s[..0], 0) == iv && Cbc(c, op, iv, s[..0], 0) == []
    ensures Spliced(before, off, []) == before
  {
  }

  lemma CachedMore(was: seq<byte>, pending: seq<byte>, s: seq<byte>)
    requires |pending| + |s| <= |was| && was[..|pending|] == pending
    ensures Spliced(was, |pending|, s)[..|pending| + |s|] == pending + s
  {
  }

  lemma BehindBlock(pending: seq<byte>, s: seq<byte>, n: nat)
    requires n <= |s| && |pending| + n == BLOCK
    ensures (pending + s)[BLOCK..] == s[n..]
  {
  }

  lemma JoinedBlock(was: seq<byte>, pending: seq<byte>, s: seq<byte>)
    requires |was| == BLOCK && |pending| <= BLOCK <= |pending| + |s| && was[..|pending|] == pending
    ensures Spliced(was, |pending|, s[..BLOCK - |pending|])[0..0 + BLOCK] == (pending + s)[..BLOCK]
  {
  }

  /** What encrypting m in one go answers. */
  ghost predicate Encrypts(c: Perm, scheme: Scheme, iv: Block, m: seq<byte>, err: Error,
                           before: seq<byte>, off: nat, olen: nat, out: seq<byte>) {
    && err == (if scheme == NoPadding && |m| % BLOCK != 0 then FullBlockExpected else None)
    && (err == None ==>
          var r := Ciphertext(c, scheme, iv, m);
          olen == |r| && off + |r| <= |before| && out == Spliced(before, off, r))
  }

  lemma OneShotEncrypt(c: Perm, scheme: Scheme, iv: Block, m: seq<byte>)
    ensures
      var r := Feed(c, Encrypt, Held(iv, []), m);
      && |r.0.pending| < BLOCK
      && (r.0.pending == [] <==> |m| % BLOCK == 0)
      && (scheme != NoPadding || |m| % BLOCK == 0 ==>
            r.1 + FinalBlock(c, scheme, r.0) == Ciphertext(c, scheme, iv, m))
  {
    assert Concat([m]) == m by {
      assert [m][..0] == [] && Concat([]) + m == m;
    }
    FeedAllIsFeed(c, Encrypt, Held(iv, []), [m]);
    hide Cbc, CbcNext, FinalBlock, Ciphertext, FeedAll, Concat;
    assert [] + m == m;
    if scheme != NoPadding || |m| % BLOCK == 0 {
      EncryptStream(c, scheme, iv, [m]);
    }
  }

  lemma EncryptsInTwo(c: Perm, scheme: Scheme, iv: Block, m: seq<byte>, err: Error,
                      before: seq<byte>, off: nat, mid: seq<byte>, out: seq<byte>)
    requires off + |m| + BLOCK <= |before|
    requires
      var r := Feed(c, Encrypt, Held(iv, []), m);
      && |r.0.pending| < BLOCK
      && off + |r.1| + BLOCK <= |before| && mid == Spliced(before, off, r.1)
      && err == (if scheme == NoPadding && r.0.pending != [] then FullBlockExpected else None)
      && (err == None ==> out == Spliced(mid, off + |r.1|, FinalBlock(c, scheme, r.0)))
    ensures
      var r := Feed(c, Encrypt, Held(iv, []), m);
      Encrypts(c, scheme, iv, m, err, before, off, |r.1| + if err == None then |FinalBlock(c, scheme, r.0)| else 0, out)
  {
    hide Feed, FinalBlock, Ciphertext, Spliced;
    OneShotEncrypt(c, scheme, iv, m);
    var r := Feed(c, Encrypt, Held(iv, []), m);
    if err == None {
      SplicedTwice(before, off, r.1, FinalBlock(c, scheme, r.0));
    }
  }

  /** What decrypting s in one go may answer. */
  ghost predicate Decrypts(c: Perm, scheme: Scheme, iv: Block, s: seq<byte>, ok: bool, out: seq<byte>) {
    var r := Feed(c, Decrypt, Held(iv, []), s);
    exists last :: Finishes(c, scheme, r.0, ok, last) && (ok ==> out == r.1 + last)
  }

  lemma DecryptsInTwo(c: Perm, scheme: Scheme, iv: Block, s: seq<byte>, r: (Held, seq<byte>), ok: bool,
                      mid: seq<byte>, out: seq<byte>, off: nat, n: nat)
    requires r == Feed(c, Decrypt, Held(iv, []), s)
    requires
      var k := off + |r.1|;
      k + (if ok then n else 0) <= |mid| == |out| && mid[off..k] == r.1 && out[..k] == mid[..k]
    requires
      var k := off + |r.1|;
      Finishes(c, scheme, r.0, ok, if ok then out[k..k + n] else [])
    ensures Decrypts(c, scheme, iv, s, ok, if ok then out[off..off + (|r.1| + n)] else [])
  {
    hide Feed, Finishes;
    if ok {
      Joined(mid, out, off, |r.1|, n);
    }
  }

  /** cipher_crypt undoes cipher_crypt, for every message and every padding but zeros. */
  lemma CryptRoundTrip(c: Perm, scheme: Scheme, iv: Block, m: seq<byte>, ok: bool, out: seq<byte>)
    requires Inverse(c) && scheme != NoPadding && scheme != ZeroPad
    requires Decrypts(c, scheme, iv, Ciphertext(c, scheme, iv, m), ok, out)
    ensures ok && out == m
  {
    var e := Ciphertext(c, scheme, iv, m);
    assert Concat([e]) == e by {
      assert [e][..0] == [] && Concat([]) + e == e;
    }
    FeedAllIsFeed(c, Decrypt, Held(iv, []), [e]);
    hide Cbc, CbcNext, Ciphertext, FeedAll, Concat, Feed, Finishes;
    var r := Feed(c, Decrypt, Held(iv, []), e);
    var last :| Finishes(c, scheme, r.0, ok, last) && (ok ==> out == r.1 + last);
    StreamRoundTrip(c, scheme, iv, m, [e], ok, last);
  }

  lemma Joined(mid: seq<byte>, out: seq<byte>, off: nat, k: nat, n: nat)
    requires off + k + n <= |out| == |mid| && out[..off + k] == mid[..off + k]
    ensures out[off..off + k + n] == mid[off..off + k] + out[off + k..off + k + n]
  {
    assert mid[off..off + k] == mid[..off + k][off..] && out[off..off + k] == out[..off + k][off..];
  }
}
