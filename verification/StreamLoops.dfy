/** aes_crypt_cfb128 and aes_crypt_ctr as the source has them: in place, byte by byte. */
module StreamLoops {
  import opened BlockCipher
  import opened Modes
  import opened StreamModes

  /** k bytes of s have been processed: out is the buffer and st the state by then. */
  ghost predicate Streamed(c: Perm, mode: Mode, op: Operation, st0: State, s: seq<byte>, k: nat,
                           before: seq<byte>, off: nat, out: seq<byte>, st: State)
    requires Ok(st0) && k <= |s| && off + |s| <= |before|
  {
    && st == Run(c, mode, op, st0, s, k).0
    && out == Spliced(before, off, Run(c, mode, op, st0, s, k).1)
  }

  lemma StreamedNone(c: Perm, mode: Mode, op: Operation, st: State, s: seq<byte>, before: seq<byte>, off: nat)
    requires Ok(st) && off + |s| <= |before|
    ensures Streamed(c, mode, op, st, s, 0, before, off, before, st)
  {
  }

  lemma StreamedNext(c: Perm, mode: Mode, op: Operation, st0: State, s: seq<byte>, k: nat,
                     before: seq<byte>, off: nat, out: seq<byte>, st: State)
    requires Ok(st0) && Ok(st) && k < |s| && off + |s| <= |before| == |out|
    requires Streamed(c, mode, op, st0, s, k, before, off, out, st)
    ensures
      var t := Turn(c, mode, op, st, s[k]);
      Streamed(c, mode, op, st0, s, k + 1, before, off, Spliced(out, off + k, [t.1]), t.0)
  {
    hide Turn, Spliced;
    SplicedTwice(before, off, Run(c, mode, op, st0, s, k).1, [Turn(c, mode, op, st, s[k]).1]);
  }

  lemma StreamedAll(c: Perm, mode: Mode, op: Operation, st0: State, s: seq<byte>,
                    before: seq<byte>, off: nat, out: seq<byte>, st: State)
    requires Ok(st0) && off + |s| <= |before|
    requires Streamed(c, mode, op, st0, s, |s|, before, off, out, st)
    ensures st == Run(c, mode, op, st0, s, |s|).0
    ensures out == Spliced(before, off, Run(c, mode, op, st0, s, |s|).1)
  {
  }

  /** output[o] := y; whatever is read from input later is still there. */
  method PutByte(input: array<byte>, i: nat, output: array<byte>, o: nat, y: byte)
    requires i < input.Length && o < output.Length
    requires input == output ==> i == o
    modifies output
    ensures output[..] == Spliced(old(output[..]), o, [y])
    ensures SameFrom(input[..], old(input[..]), i + 1)
  {
    ghost var all, before := input[..], output[..];
    output[o] := y;
    SplicedBy(before, o, [y], output[..]);
    assert input[i + 1..] == all[i + 1..];
  }

  /** The body of both loops of aes_crypt_cfb128. */
  method CfbByteLoop(c: Perm, op: Operation, n: nat, iv: array<byte>, input: array<byte>, i: nat,
                     output: array<byte>, o: nat, ghost st: State, ghost out: seq<byte>)
    returns (next: nat)
    requires iv.Length == BLOCK && iv != input && iv != output
    requires i < input.Length && o < output.Length
    requires input == output ==> i == o
    requires Ok(st) && st.n == n && st.iv == iv[..] && out == output[..]
    modifies iv, output
    ensures
      var t := Turn(c, CFB, op, st, old(input[i]));
      && t.0 == State(iv[..], st.block, next)
      && output[..] == Spliced(out, o, [t.1])
    ensures SameFrom(input[..], old(input[..]), i + 1)
  {
    hide Spliced, SameFrom;
    if n == 0 {
      Put(iv, 0, c.enc(iv[..]));
      SplicedWhole(st.iv, c.enc(st.iv));
    }
    var x := input[i];
    var y := x ^ iv[n];
    PutByte(input, i, output, o, y);
    iv[n] := if op == Decrypt then x else y;
    next := NextOffset(n);
  }

  lemma IncrementFrom(a: seq<byte>, i: nat)
    requires 0 < i <= |a|
    ensures Increment(a[..i]) == if a[i - 1] + 1 != 0 then a[..i - 1] + [a[i - 1] + 1] else Increment(a[..i - 1]) + [0]
  {
    assert a[..i][..i - 1] == a[..i - 1];
  }

  lemma ZerosMore(n: nat)
    ensures [0] + Zeros(n) == Zeros(n + 1)
  {
  }

  /** The bytes of a behind i have been counted up to 0, and the carry goes on to the one before. */
  ghost predicate CarryAt(nc: seq<byte>, pre: seq<byte>, a: seq<byte>, i: nat) {
    && i <= |a| && nc == pre + (a[..i] + Zeros(|a| - i))
    && Increment(a) == Increment(a[..i]) + Zeros(|a| - i)
  }

  /** nc with the byte for a[i - 1] counted up. */
  lemma CarryParts(nc: seq<byte>, pre: seq<byte>, a: seq<byte>, i: nat, now: seq<byte>)
    requires CarryAt(nc, pre, a, i) && i > 0
    requires |now| == |nc| && now == nc[|pre| + i - 1 := a[i - 1] + 1]
    ensures now == pre + (a[..i - 1] + [a[i - 1] + 1] + Zeros(|a| - i))
  {
    hide Increment, Zeros;
    PutAt(pre, a[..i], Zeros(|a| - i), a[i - 1] + 1);
    TakeTake(a, i);
  }

  lemma CarryByteAt(nc: seq<byte>, pre: seq<byte>, a: seq<byte>, i: nat)
    requires CarryAt(nc, pre, a, i) && i > 0
    ensures i <= |a| && |nc| == |pre| + |a| && nc[|pre| + i - 1] == a[i - 1]
  {
    hide Increment, Zeros;
    PutAt(pre, a[..i], Zeros(|a| - i), 0);
    TakeTake(a, i);
  }

  lemma CarryStops(nc: seq<byte>, pre: seq<byte>, a: seq<byte>, i: nat, now: seq<byte>)
    requires CarryAt(nc, pre, a, i) && i > 0 && a[i - 1] + 1 != 0
    requires now == pre + (a[..i - 1] + [a[i - 1] + 1] + Zeros(|a| - i))
    ensures now == pre + Increment(a)
  {
    IncrementFrom(a, i);
    hide Increment, Zeros;
  }

  lemma CarryGoesOn(nc: seq<byte>, pre: seq<byte>, a: seq<byte>, i: nat, now: seq<byte>)
    requires CarryAt(nc, pre, a, i) && i > 0 && a[i - 1] + 1 == 0
    requires now == pre + (a[..i - 1] + [0] + Zeros(|a| - i))
    ensures CarryAt(now, pre, a, i - 1)
  {
    IncrementFrom(a, i);
    ZerosMore(|a| - i);
    hide Increment, Zeros;
    Associate(a[..i - 1], [0], Zeros(|a| - i));
    Associate(Increment(a[..i - 1]), [0], Zeros(|a| - i));
  }

  lemma TakeTake(a: seq<byte>, i: nat)
    requires 0 < i <= |a|
    ensures a[..i][..i - 1] == a[..i - 1] && a[..i][i - 1] == a[i - 1]
  {
  }

  lemma Associate(x: seq<byte>, y: seq<byte>, z: seq<byte>)
    ensures (x + y) + z == x + (y + z)
  {
  }

  lemma PutAt(pre: seq<byte>, x: seq<byte>, tail: seq<byte>, b: byte)
    requires x != []
    ensures
      var s := pre + (x + tail);
      var k := |pre| + |x| - 1;
      s[k] == x[|x| - 1] && s[k := b] == pre + (x[..|x| - 1] + [b] + tail)
  {
  }

  /** One turn of the carry loop over nc[lo..]; done says that the source breaks out of it. */
  method CarryByte(nc: array<byte>, lo: nat, i: nat, ghost pre: seq<byte>, ghost a: seq<byte>) returns (done: bool)
    requires |pre| == lo && 0 < i && lo + i <= nc.Length && CarryAt(nc[..], pre, a, i)
    modifies nc
    ensures if done then nc[..] == pre + Increment(a) else CarryAt(nc[..], pre, a, i - 1)
  {
    ghost var was := nc[..];
    CarryByteAt(was, pre, a, i);
    hide CarryAt, Increment, Zeros;
    nc[lo + i - 1] := nc[lo + i - 1] + 1;
    assert nc[..] == was[lo + i - 1 := a[i - 1] + 1];
    CarryParts(was, pre, a, i, nc[..]);
    done := nc[lo + i - 1] != 0;
    if done {
      CarryStops(was, pre, a, i, nc[..]);
    } else {
      CarryGoesOn(was, pre, a, i, nc[..]);
    }
  }

  /** The carry loops of aes_crypt_ctr (lo = 0) and of CCM (the last q bytes): ++ until a byte is not 0. */
  method IncrementCounter(nc: array<byte>, lo: nat)
    requires lo <= nc.Length
    modifies nc
    ensures nc[..] == old(nc[..lo]) + Increment(old(nc[lo..]))
  {
    ghost var pre, a := nc[..lo], nc[lo..];
    CarryStart(nc[..], lo);
    hide Zeros, Increment, CarryAt;
    var i := nc.Length - lo;
    var done := false;
    while i > 0 && !done
      invariant 0 <= i <= nc.Length - lo
      invariant if done then nc[..] == pre + Increment(a) else CarryAt(nc[..], pre, a, i)
      decreases i
    {
      done := CarryByte(nc, lo, i, pre, a);
      i := i - 1;
    }
    if !done {
      CarryEnd(nc[..], pre, a);
    }
  }

  lemma CarryEnd(nc: seq<byte>, pre: seq<byte>, a: seq<byte>)
    requires CarryAt(nc, pre, a, 0)
    ensures nc == pre + Increment(a)
  {
    assert a[..0] == [] && Increment([]) == [];
    assert a[..0] + Zeros(|a|) == Zeros(|a|) == Increment(a[..0]) + Zeros(|a|);
  }

  lemma CarryStart(s: seq<byte>, lo: nat)
    requires lo <= |s|
    ensures CarryAt(s, s[..lo], s[lo..], |s| - lo)
  {
    var a := s[lo..];
    assert a[..|a|] == a && Zeros(0) == [];
  }

  lemma WholeCounter(b: Block)
    ensures b[..0] + Increment(b[0..]) == Increment(b)
  {
    assert b[0..] == b;
  }

  predicate Apart(nc: array<byte>, block: array<byte>, input: array<byte>, output: array<byte>) {
    && nc.Length == BLOCK == block.Length && nc != block
    && nc != input && nc != output && block != input && block != output
  }

  /** The body of the loop of aes_crypt_ctr. */
  method CtrByteLoop(c: Perm, op: Operation, n: nat, nc: array<byte>, block: array<byte>,
                     input: array<byte>, i: nat, output: array<byte>, o: nat, ghost st: State, ghost out: seq<byte>)
    returns (next: nat)
    requires Apart(nc, block, input, output)
    requires i < input.Length && o < output.Length
    requires input == output ==> i == o
    requires Ok(st) && st == State(nc[..], block[..], n) && out == output[..]
    modifies nc, block, output
    ensures
      var t := Turn(c, CTR, op, st, old(input[i]));
      && t.0 == State(nc[..], block[..], next)
      && output[..] == Spliced(out, o, [t.1])
    ensures SameFrom(input[..], old(input[..]), i + 1)
  {
    hide Spliced, SameFrom, Increment;
    if n == 0 {
      Put(block, 0, c.enc(nc[..]));
      SplicedWhole(st.block, c.enc(st.iv));
      IncrementCounter(nc, 0);
      WholeCounter(st.iv);
    }
    var y := input[i] ^ block[n];
    PutByte(input, i, output, o, y);
    next := NextOffset(n);
  }

  lemma NextByte(all: seq<byte>, now: seq<byte>, off: nat, s: seq<byte>, k: nat)
    requires SameFrom(now, all, off + k) && Holds(all, off, s) && k < |s|
    ensures now[off + k] == s[k]
    ensures SameFrom(now, all, off + k + 1)
  {
    SameFromOn(now, all, off + k, 1);
    assert now[off + k] == now[off + k..off + k + 1][0];
  }

  /** What a stream loop works on: snapshots of the state it starts from. */
  datatype Job = Job(mode: Mode, op: Operation, st: State, s: seq<byte>,
                     all: seq<byte>, inOff: nat, before: seq<byte>, outOff: nat)

  /** The invariant of both loops: k bytes are done. */
  ghost predicate LoopAt(c: Perm, j: Job, k: nat, now: seq<byte>, out: seq<byte>, st: State) {
    && Ok(j.st) && Ok(st) && k <= |j.s|
    && Holds(j.all, j.inOff, j.s) && |now| == |j.all| && j.outOff + |j.s| <= |j.before| == |out|
    && Streamed(c, j.mode, j.op, j.st, j.s, k, j.before, j.outOff, out, st)
    && SameFrom(now, j.all, j.inOff + k)
  }

  lemma LoopStart(c: Perm, j: Job)
    requires Ok(j.st) && Holds(j.all, j.inOff, j.s) && j.outOff + |j.s| <= |j.before|
    ensures LoopAt(c, j, 0, j.all, j.before, j.st)
  {
    StreamedNone(c, j.mode, j.op, j.st, j.s, j.before, j.outOff);
  }

  lemma LoopNext(c: Perm, j: Job, k: nat, now: seq<byte>, out: seq<byte>, st: State, later: seq<byte>)
    requires LoopAt(c, j, k, now, out, st) && k < |j.s|
    requires SameFrom(later, now, j.inOff + k + 1)
    ensures j.inOff + k < |now| && j.outOff + k < |out| && Ok(st)
    ensures now[j.inOff + k] == j.s[k]
    ensures
      var t := Turn(c, j.mode, j.op, st, j.s[k]);
      LoopAt(c, j, k + 1, later, Spliced(out, j.outOff + k, [t.1]), t.0)
  {
    hide Streamed, Turn, Spliced;
    NextByte(j.all, now, j.inOff, j.s, k);
    StreamedNext(c, j.mode, j.op, j.st, j.s, k, j.before, j.outOff, out, st);
    SameFromTrans(later, now, j.all, j.inOff + k + 1);
  }

  lemma LoopRoom(c: Perm, j: Job, k: nat, now: seq<byte>, out: seq<byte>, st: State)
    requires LoopAt(c, j, k, now, out, st) && k < |j.s|
    ensures j.inOff + k < |now| && j.outOff + k < |out| && Ok(st)
    ensures now[j.inOff + k] == j.s[k]
  {
    hide Streamed;
    NextByte(j.all, now, j.inOff, j.s, k);
  }

  lemma LoopEnd(c: Perm, j: Job, now: seq<byte>, out: seq<byte>, st: State)
    requires LoopAt(c, j, |j.s|, now, out, st)
    ensures Ok(j.st) && j.outOff + |j.s| <= |j.before|
    ensures st == Run(c, j.mode, j.op, j.st, j.s, |j.s|).0
    ensures out == Spliced(j.before, j.outOff, Run(c, j.mode, j.op, j.st, j.s, |j.s|).1)
  {
    StreamedAll(c, j.mode, j.op, j.st, j.s, j.before, j.outOff, out, st);
  }

  predicate CfbBuffers(iv: array<byte>, input: array<byte>, inOff: nat, output: array<byte>, outOff: nat) {
    && iv.Length == BLOCK && iv != input && iv != output
    && (input == output ==> inOff == outOff)
  }

  /** One turn of aes_crypt_cfb128. */
  method CfbStep(c: Perm, op: Operation, n: nat, iv: array<byte>, input: array<byte>, inOff: nat,
                 output: array<byte>, outOff: nat, k: nat, ghost j: Job, ghost st: State)
    returns (next: nat)
    requires CfbBuffers(iv, input, inOff, output, outOff)
    requires j.mode == CFB && j.op == op && j.inOff == inOff && j.outOff == outOff && k < |j.s|
    requires st.n == n && st.iv == iv[..] && LoopAt(c, j, k, input[..], output[..], st)
    modifies iv, output
    ensures next < BLOCK && LoopAt(c, j, k + 1, input[..], output[..], State(iv[..], st.block, next))
  {
    ghost var now, out := input[..], output[..];
    LoopRoom(c, j, k, now, out, st);
    hide LoopAt, SameFrom, Spliced, Turn;
    next := CfbByteLoop(c, op, n, iv, input, inOff + k, output, outOff + k, st, out);
    LoopNext(c, j, k, now, out, st, input[..]);
  }

  /** The while loop of aes_crypt_cfb128. */
  method CfbLoop(c: Perm, op: Operation, length: nat, ivOff: nat, iv: array<byte>, input: array<byte>, inOff: nat,
                 output: array<byte>, outOff: nat, ghost j: Job)
    returns (n: nat)
    requires CfbBuffers(iv, input, inOff, output, outOff)
    requires j.mode == CFB && j.op == op && j.inOff == inOff && j.outOff == outOff && |j.s| == length
    requires j.st.n == ivOff && j.st.iv == iv[..] && LoopAt(c, j, 0, input[..], output[..], j.st)
    modifies iv, output
    ensures LoopAt(c, j, length, input[..], output[..], State(iv[..], j.st.block, n))
  {
    hide LoopAt, CfbBuffers;
    n := ivOff;
    var k := 0;
    while k < length
      invariant k <= length
      invariant LoopAt(c, j, k, input[..], output[..], State(iv[..], j.st.block, n))
    {
      n := CfbStep(c, op, n, iv, input, inOff, output, outOff, k, j, State(iv[..], j.st.block, n));
      k := k + 1;
    }
  }

  /** aes_crypt_cfb128, over any number of bytes, from any offset in the block. */
  method AesCryptCfb128(c: Perm, op: Operation, length: nat, ivOff: nat, iv: array<byte>,
                        input: array<byte>, inOff: nat, output: array<byte>, outOff: nat, ghost block: Block)
    returns (n: nat)
    requires CfbBuffers(iv, input, inOff, output, outOff) && ivOff < BLOCK
    requires inOff + length <= input.Length && outOff + length <= output.Length
    modifies iv, output
    ensures
      var s := old(input[inOff..inOff + length]);
      var r := Run(c, CFB, op, State(old(iv[..]), block, ivOff), s, length);
      && State(iv[..], block, n) == r.0
      && output[..] == Spliced(old(output[..]), outOff, r.1)
  {
    ghost var s := input[inOff..inOff + length];
    ghost var j := Job(CFB, op, State(iv[..], block, ivOff), s, input[..], inOff, output[..], outOff);
    hide LoopAt, Run, Spliced;
    LoopStart(c, j);
    n := CfbLoop(c, op, length, ivOff, iv, input, inOff, output, outOff, j);
    LoopEnd(c, j, input[..], output[..], State(iv[..], block, n));
  }

  predicate CtrBuffers(nc: array<byte>, block: array<byte>, input: array<byte>, inOff: nat, output: array<byte>, outOff: nat) {
    && Apart(nc, block, input, output)
    && (input == output ==> inOff == outOff)
  }

  /** One turn of aes_crypt_ctr. */
  method CtrStep(c: Perm, op: Operation, n: nat, nc: array<byte>, block: array<byte>, input: array<byte>, inOff: nat,
                 output: array<byte>, outOff: nat, k: nat, ghost j: Job, ghost st: State)
    returns (next: nat)
    requires CtrBuffers(nc, block, input, inOff, output, outOff)
    requires j.mode == CTR && j.op == op && j.inOff == inOff && j.outOff == outOff && k < |j.s|
    requires st == State(nc[..], block[..], n) && LoopAt(c, j, k, input[..], output[..], st)
    modifies nc, block, output
    ensures next < BLOCK && LoopAt(c, j, k + 1, input[..], output[..], State(nc[..], block[..], next))
  {
    ghost var now, out := input[..], output[..];
    LoopRoom(c, j, k, now, out, st);
    hide LoopAt, SameFrom, Spliced, Turn;
    next := CtrByteLoop(c, op, n, nc, block, input, inOff + k, output, outOff + k, st, out);
    LoopNext(c, j, k, now, out, st, input[..]);
  }

  /** The while loop of aes_crypt_ctr. */
  method CtrLoop(c: Perm, op: Operation, length: nat, ncOff: nat, nc: array<byte>, block: array<byte>,
                 input: array<byte>, inOff: nat, output: array<byte>, outOff: nat, ghost j: Job)
    returns (n: nat)
    requires CtrBuffers(nc, block, input, inOff, output, outOff)
    requires j.mode == CTR && j.op == op && j.inOff == inOff && j.outOff == outOff && |j.s| == length
    requires nc.Length == BLOCK == block.Length
    requires j.st == State(nc[..], block[..], ncOff) && LoopAt(c, j, 0, input[..], output[..], j.st)
    modifies nc, block, output
    ensures LoopAt(c, j, length, input[..], output[..], State(nc[..], block[..], n))
  {
    hide LoopAt, CtrBuffers;
    n := ncOff;
    var k := 0;
    while k < length
      invariant k <= length
      invariant LoopAt(c, j, k, input[..], output[..], State(nc[..], block[..], n))
    {
      n := CtrStep(c, op, n, nc, block, input, inOff, output, outOff, k, j, State(nc[..], block[..], n));
      k := k + 1;
    }
  }

  /** aes_crypt_ctr, over any number of bytes, from any offset in the block. */
  method AesCryptCtr(c: Perm, op: Operation, length: nat, ncOff: nat, nc: array<byte>, block: array<byte>,
                     input: array<byte>, inOff: nat, output: array<byte>, outOff: nat)
    returns (n: nat)
    requires CtrBuffers(nc, block, input, inOff, output, outOff) && ncOff < BLOCK
    requires inOff + length <= input.Length && outOff + length <= output.Length
    modifies nc, block, output
    ensures
      var s := old(input[inOff..inOff + length]);
      var r := Run(c, CTR, op, State(old(nc[..]), old(block[..]), ncOff), s, length);
      && State(nc[..], block[..], n) == r.0
      && output[..] == Spliced(old(output[..]), outOff, r.1)
  {
    ghost var s := input[inOff..inOff + length];
    ghost var j := Job(CTR, op, State(nc[..], block[..], ncOff), s, input[..], inOff, output[..], outOff);
    hide LoopAt, Run, Spliced;
    LoopStart(c, j);
    n := CtrLoop(c, op, length, ncOff, nc, block, input, inOff, output, outOff, j);
    LoopEnd(c, j, input[..], output[..], State(nc[..], block[..], n));
  }
}
