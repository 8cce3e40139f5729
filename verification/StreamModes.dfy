/**
  * The byte-at-a-time modes of aes.c: CFB128 and CTR (NIST SP 800-38A,
  * sections 6.3 and 6.5), as one transducer over bytes.
  */
module StreamModes {
  import opened BlockCipher
  import opened Modes

  datatype Mode = CFB | CTR

  /** iv or counter, stream block (CTR only), and the offset within the block. */
  datatype State = State(iv: Block, block: Block, n: nat)

  predicate Ok(st: State) {
    st.n < BLOCK
  }

  /** Adds one to a big-endian counter, dropping the carry out of the top byte. */
  function Increment(b: seq<byte>): (r: seq<byte>)
    ensures |r| == |b|
  {
    if b == [] then [] else
      var k := |b| - 1;
      if b[k] + 1 != 0 then b[..k] + [b[k] + 1] else Increment(b[..k]) + [0]
  }

  /** The state with key stream at hand: a fresh block is made at offset 0. */
  function Ready(c: Perm, mode: Mode, st: State): (r: State)
    requires Ok(st)
    ensures Ok(r) && r.n == st.n
  {
    if st.n != 0 then st
    else if mode == CFB then st.(iv := c.enc(st.iv))
    else st.(iv := Increment(st.iv), block := c.enc(st.iv))
  }

  function KeyByte(mode: Mode, st: State): byte
    requires Ok(st)
  {
    if mode == CFB then st.iv[st.n] else st.block[st.n]
  }

  function NextOffset(n: nat): nat {
    (n + 1) % BLOCK
  }

  /** The state after x came in and y went out. */
  function After(mode: Mode, op: Operation, st: State, x: byte, y: byte): (r: State)
    requires Ok(st)
    ensures Ok(r)
  {
    var iv := if mode == CFB then st.iv[st.n := if op == Decrypt then x else y] else st.iv;
    State(iv, st.block, NextOffset(st.n))
  }

  /** One turn of the loop of either mode: x in, a byte out. */
  function Turn(c: Perm, mode: Mode, op: Operation, st: State, x: byte): (r: (State, byte))
    requires Ok(st)
    ensures Ok(r.0)
  {
    var ready := Ready(c, mode, st);
    var y := x ^ KeyByte(mode, ready);
    (After(mode, op, ready, x, y), y)
  }

  /** State and output after the first k bytes of s. */
  function Run(c: Perm, mode: Mode, op: Operation, st: State, s: seq<byte>, k: nat): (r: (State, seq<byte>))
    requires Ok(st) && k <= |s|
    ensures Ok(r.0) && |r.1| == k
  {
    if k == 0 then (st, []) else
      var prev := Run(c, mode, op, st, s, k - 1);
      var t := Turn(c, mode, op, prev.0, s[k - 1]);
      (t.0, prev.1 + [t.1])
  }

  lemma {:induction false} RunPrefix(c: Perm, mode: Mode, op: Operation, st: State, a: seq<byte>, b: seq<byte>, k: nat)
    requires Ok(st) && k <= |a|
    ensures Run(c, mode, op, st, a + b, k) == Run(c, mode, op, st, a, k)
  {
    hide Turn;
    if k > 0 {
      RunPrefix(c, mode, op, st, a, b, k - 1);
      assert (a + b)[k - 1] == a[k - 1];
    }
  }

  /** Running over a and then b from where a left it is running it over a + b. */
  lemma {:induction false} RunSplit(c: Perm, mode: Mode, op: Operation, st: State, a: seq<byte>, b: seq<byte>, k: nat)
    requires Ok(st) && k <= |b|
    ensures
      var left := Run(c, mode, op, st, a, |a|);
      var right := Run(c, mode, op, left.0, b, k);
      Run(c, mode, op, st, a + b, |a| + k) == (right.0, left.1 + right.1)
    decreases k
  {
    hide Turn;
    var left := Run(c, mode, op, st, a, |a|);
    if k == 0 {
      RunPrefix(c, mode, op, st, a, b, |a|);
      assert left.1 + [] == left.1;
    } else {
      RunSplit(c, mode, op, st, a, b, k - 1);
      assert (a + b)[|a| + k - 1] == b[k - 1];
      var right := Run(c, mode, op, left.0, b, k - 1);
      var t := Turn(c, mode, op, right.0, b[k - 1]);
      assert (left.1 + right.1) + [t.1] == left.1 + (right.1 + [t.1]);
    }
  }

  /** Any number of pieces, one after the other. */
  function RunPieces(c: Perm, mode: Mode, op: Operation, st: State, pieces: seq<seq<byte>>): (r: (State, seq<byte>))
    requires Ok(st)
    ensures Ok(r.0)
  {
    if pieces == [] then (st, []) else
      var k := |pieces| - 1;
      var before := RunPieces(c, mode, op, st, pieces[..k]);
      var last := Run(c, mode, op, before.0, pieces[k], |pieces[k]|);
      (last.0, before.1 + last.1)
  }

  /** However a message is cut, the state and the output are those of the whole. */
  lemma {:induction false} RunPiecesIsRun(c: Perm, mode: Mode, op: Operation, st: State, pieces: seq<seq<byte>>)
    requires Ok(st)
    ensures RunPieces(c, mode, op, st, pieces) == Run(c, mode, op, st, Concat(pieces), |Concat(pieces)|)
  {
    hide Turn;
    if pieces != [] {
      hide Run;
      var k := |pieces| - 1;
      RunPiecesIsRun(c, mode, op, st, pieces[..k]);
      RunSplit(c, mode, op, st, Concat(pieces[..k]), pieces[k], |pieces[k]|);
    }
  }

  lemma TurnRoundTrip(c: Perm, mode: Mode, st: State, x: byte)
    requires Ok(st)
    ensures
      var t := Turn(c, mode, Encrypt, st, x);
      Turn(c, mode, Decrypt, st, t.1) == (t.0, x)
  {
    XorByte(x, KeyByte(mode, Ready(c, mode, st)));
  }

  /** Decryption from the same state undoes encryption and ends in the same state. */
  lemma {:induction false} RunRoundTrip(c: Perm, mode: Mode, st: State, s: seq<byte>, k: nat)
    requires Ok(st) && k <= |s|
    ensures
      var e := Run(c, mode, Encrypt, st, s, k);
      Run(c, mode, Decrypt, st, e.1, k) == (e.0, s[..k])
  {
    hide Turn;
    if k > 0 {
      RunRoundTrip(c, mode, st, s, k - 1);
      var e := Run(c, mode, Encrypt, st, s, k - 1);
      var t := Turn(c, mode, Encrypt, e.0, s[k - 1]);
      TurnRoundTrip(c, mode, e.0, s[k - 1]);
      RunPrefix(c, mode, Decrypt, st, e.1, [t.1], k - 1);
      assert (e.1 + [t.1])[k - 1] == t.1;
      assert s[..k] == s[..k - 1] + [s[k - 1]];
    }
  }

  /** Any cutting of what any cutting of a message encrypts to decrypts to the message. */
  lemma PiecesRoundTrip(c: Perm, mode: Mode, st: State, plain: seq<seq<byte>>, cut: seq<seq<byte>>)
    requires Ok(st)
    requires Concat(cut) == RunPieces(c, mode, Encrypt, st, plain).1
    ensures RunPieces(c, mode, Decrypt, st, cut) == (RunPieces(c, mode, Encrypt, st, plain).0, Concat(plain))
  {
    hide Run, RunPieces, Concat;
    var s := Concat(plain);
    RunPiecesIsRun(c, mode, Encrypt, st, plain);
    RunPiecesIsRun(c, mode, Decrypt, st, cut);
    RunRoundTrip(c, mode, st, s, |s|);
    assert s[..|s|] == s;
  }

  // ---- The definition of CFB ----

  /** The block that is enciphered to mask block j: the ciphertext block before it. */
  function CfbInput(iv: Block, ciphertext: seq<byte>, j: nat): Block
    requires BLOCK * j <= |ciphertext|
  {
    if j == 0 then iv else Blk(ciphertext, j - 1)
  }

  /** The front of iv has been overwritten by tail; behind it, iv still holds key. */
  ghost predicate Filled(iv: Block, tail: seq<byte>, key: Block) {
    && |tail| <= BLOCK
    && iv[..|tail|] == tail
    && iv[|tail|..] == key[|tail|..]
  }

  lemma FilledNone(key: Block)
    ensures Filled(key, [], key)
  {
  }

  lemma FilledNext(iv: Block, tail: seq<byte>, key: Block, z: byte)
    requires Filled(iv, tail, key) && |tail| < BLOCK
    ensures iv[|tail|] == key[|tail|]
    ensures Filled(iv[|tail| := z], tail + [z], key)
  {
    var r := |tail|;
    assert iv[r] == iv[r..][0] == key[r..][0];
    assert iv[r := z][r + 1..] == iv[r..][1..] == key[r..][1..] == key[r + 1..];
  }

  lemma FilledAll(iv: Block, tail: seq<byte>, key: Block)
    requires Filled(iv, tail, key) && |tail| == BLOCK
    ensures iv == tail
  {
  }

  /** Where CFB stands within a block: prev was the block before, tail is what came since. */
  ghost predicate CfbAt(c: Perm, prev: Block, tail: seq<byte>, st: State) {
    && st.n == |tail| < BLOCK
    && if tail == [] then st.iv == prev else Filled(st.iv, tail, c.enc(prev))
  }

  /** The ciphertext byte of a turn: what comes out of encryption or goes into decryption. */
  function CfbByte(c: Perm, op: Operation, st: State, x: byte): byte
    requires Ok(st)
  {
    if op == Encrypt then Turn(c, CFB, op, st, x).1 else x
  }

  lemma CfbTurnIs(c: Perm, op: Operation, st: State, x: byte)
    requires Ok(st)
    ensures
      var iv := if st.n == 0 then c.enc(st.iv) else st.iv;
      && Turn(c, CFB, op, st, x).1 == x ^ iv[st.n]
      && Turn(c, CFB, op, st, x).0.iv == iv[st.n := CfbByte(c, op, st, x)]
      && Turn(c, CFB, op, st, x).0.n == if st.n + 1 < BLOCK then st.n + 1 else 0
  {
  }

  lemma CfbFills(c: Perm, op: Operation, prev: Block, tail: seq<byte>, st: State, x: byte)
    requires CfbAt(c, prev, tail, st)
    ensures Turn(c, CFB, op, st, x).1 == x ^ c.enc(prev)[|tail|]
    ensures Filled(Turn(c, CFB, op, st, x).0.iv, tail + [CfbByte(c, op, st, x)], c.enc(prev))
    ensures Turn(c, CFB, op, st, x).0.n == if |tail| + 1 < BLOCK then |tail| + 1 else 0
  {
    CfbTurnIs(c, op, st, x);
    hide Turn, Filled, CfbByte;
    FilledNone(c.enc(prev));
    FilledNext(if st.n == 0 then c.enc(prev) else st.iv, tail, c.enc(prev), CfbByte(c, op, st, x));
  }

  lemma CfbTurn(c: Perm, op: Operation, prev: Block, tail: seq<byte>, st: State, x: byte)
    requires CfbAt(c, prev, tail, st)
    ensures
      var t := Turn(c, CFB, op, st, x);
      var more := tail + [CfbByte(c, op, st, x)];
      && t.1 == x ^ c.enc(prev)[|tail|]
      && (if |more| < BLOCK then CfbAt(c, prev, more, t.0) else CfbAt(c, more, [], t.0))
  {
    hide Turn, CfbByte, Filled;
    CfbFills(c, op, prev, tail, st, x);
    if |tail| + 1 == BLOCK {
      FilledAll(Turn(c, CFB, op, st, x).0.iv, tail + [CfbByte(c, op, st, x)], c.enc(prev));
    }
  }

  lemma TailGrows(iv: Block, s: seq<byte>, z: byte, j: nat)
    requires BLOCK * j <= |s| < BLOCK * j + BLOCK
    ensures (s + [z])[BLOCK * j..] == s[BLOCK * j..] + [z]
    ensures CfbInput(iv, s + [z], j) == CfbInput(iv, s, j)
    ensures |s| + 1 == BLOCK * j + BLOCK ==>
      && CfbInput(iv, s + [z], j + 1) == s[BLOCK * j..] + [z]
      && (s + [z])[BLOCK * (j + 1)..] == []
  {
    if j > 0 {
      assert Blk(s + [z], j - 1) == Blk(s, j - 1);
    }
  }

  /** The ciphertext side of the first k bytes. */
  function CfbCiphertext(c: Perm, op: Operation, st: State, s: seq<byte>, k: nat): (r: seq<byte>)
    requires Ok(st) && k <= |s|
    ensures |r| == k
  {
    if op == Encrypt then Run(c, CFB, op, st, s, k).1 else s[..k]
  }

  /** After k bytes, k lying in block j, the state is where the definition wants it. */
  ghost predicate CfbReached(c: Perm, op: Operation, st: State, s: seq<byte>, j: nat, k: nat)
    requires Ok(st) && BLOCK * j <= k <= |s|
  {
    var ciphertext := CfbCiphertext(c, op, st, s, k);
    CfbAt(c, CfbInput(st.iv, ciphertext, j), ciphertext[BLOCK * j..], Run(c, CFB, op, st, s, k).0)
  }

  lemma CfbNext(c: Perm, op: Operation, st: State, s: seq<byte>, k: nat)
    requires Ok(st) && k < |s|
    ensures
      var e := Run(c, CFB, op, st, s, k).0;
      && CfbCiphertext(c, op, st, s, k + 1) == CfbCiphertext(c, op, st, s, k) + [CfbByte(c, op, e, s[k])]
      && Run(c, CFB, op, st, s, k + 1).0 == Turn(c, CFB, op, e, s[k]).0
  {
    hide Turn;
    if op == Decrypt {
      assert s[..k + 1] == s[..k] + [s[k]];
    }
  }

  lemma CfbReachesNext(c: Perm, op: Operation, st: State, s: seq<byte>, j: nat, k: nat)
    requires Ok(st) && BLOCK * j <= k < BLOCK * j + BLOCK && k < |s|
    requires CfbReached(c, op, st, s, j, k)
    ensures CfbReached(c, op, st, s, if k + 1 < BLOCK * j + BLOCK then j else j + 1, k + 1)
    ensures
      var prev := CfbInput(st.iv, CfbCiphertext(c, op, st, s, k), j);
      Turn(c, CFB, op, Run(c, CFB, op, st, s, k).0, s[k]).1 == s[k] ^ c.enc(prev)[k - BLOCK * j]
  {
    hide CfbAt, Turn, Run, CfbCiphertext, CfbByte, CfbInput;
    var e := Run(c, CFB, op, st, s, k);
    var before := CfbCiphertext(c, op, st, s, k);
    var z := CfbByte(c, op, e.0, s[k]);
    CfbNext(c, op, st, s, k);
    CfbTurn(c, op, CfbInput(st.iv, before, j), before[BLOCK * j..], e.0, s[k]);
    TailGrows(st.iv, before, z, j);
  }

  lemma CfbReachesNone(c: Perm, op: Operation, st: State, s: seq<byte>)
    requires st.n == 0
    ensures CfbReached(c, op, st, s, 0, 0)
  {
  }

  lemma {:induction false} CfbReaches(c: Perm, op: Operation, st: State, s: seq<byte>, j: nat, k: nat)
    requires st.n == 0 && BLOCK * j <= k < BLOCK * j + BLOCK && k <= |s|
    ensures CfbReached(c, op, st, s, j, k)
    decreases k
  {
    hide CfbReached;
    if k == 0 {
      CfbReachesNone(c, op, st, s);
    } else if k == BLOCK * j {
      CfbReaches(c, op, st, s, j - 1, k - 1);
      CfbReachesNext(c, op, st, s, j - 1, k - 1);
    } else {
      CfbReaches(c, op, st, s, j, k - 1);
      CfbReachesNext(c, op, st, s, j, k - 1);
    }
  }

  lemma {:induction false} RunKeeps(c: Perm, mode: Mode, op: Operation, st: State, s: seq<byte>, k: nat, m: nat)
    requires Ok(st) && k < m <= |s|
    ensures
      var out := Run(c, mode, op, st, s, m).1;
      && out[..k] == Run(c, mode, op, st, s, k).1
      && out[k] == Turn(c, mode, op, Run(c, mode, op, st, s, k).0, s[k]).1
    decreases m
  {
    hide Turn;
    if k + 1 < m {
      RunKeeps(c, mode, op, st, s, k, m - 1);
    }
  }

  lemma CfbInputOf(iv: Block, s: seq<byte>, j: nat, k: nat)
    requires BLOCK * j <= k <= |s|
    ensures CfbInput(iv, s[..k], j) == CfbInput(iv, s, j)
  {
    if j > 0 {
      TakeSlice(s, k, BLOCK * (j - 1), BLOCK * j);
    }
  }

  lemma TakeSlice(s: seq<byte>, k: nat, a: nat, b: nat)
    requires a <= b <= k <= |s|
    ensures s[..k][a..b] == s[a..b]
  {
  }

  /** The ciphertext side of a part is the beginning of the ciphertext side of the whole. */
  lemma CfbCiphertextPrefix(c: Perm, op: Operation, st: State, s: seq<byte>, k: nat)
    requires Ok(st) && k < |s|
    ensures
      var out := Run(c, CFB, op, st, s, |s|).1;
      && CfbCiphertext(c, op, st, s, k) == (if op == Encrypt then out else s)[..k]
      && out[k] == Turn(c, CFB, op, Run(c, CFB, op, st, s, k).0, s[k]).1
  {
    hide Run, Turn;
    RunKeeps(c, CFB, op, st, s, k, |s|);
  }

  /**
    * CFB from a fresh start is the mode of section 6.3: every byte of block j is
    * masked by the cipher of the ciphertext block before it, or of the iv.
    */
  lemma CfbDefinition(c: Perm, op: Operation, st: State, s: seq<byte>, j: nat, r: nat)
    requires st.n == 0 && r < BLOCK && BLOCK * j + r < |s|
    ensures
      var out := Run(c, CFB, op, st, s, |s|).1;
      var ciphertext := if op == Encrypt then out else s;
      out[BLOCK * j + r] == s[BLOCK * j + r] ^ c.enc(CfbInput(st.iv, ciphertext, j))[r]
  {
    var k := BLOCK * j + r;
    hide Turn, CfbReached, Run, CfbCiphertext, CfbInput;
    var out := Run(c, CFB, op, st, s, |s|).1;
    var ciphertext := if op == Encrypt then out else s;
    CfbCiphertextPrefix(c, op, st, s, k);
    CfbReaches(c, op, st, s, j, k);
    CfbReachesNext(c, op, st, s, j, k);
    CfbInputOf(st.iv, ciphertext, j, k);
  }

  // ---- The definition of CTR ----

  /** 2 to the 128: how many counter blocks there are. */
  const COUNTERS: nat := 0x1_0000_0000_0000_0000_0000_0000_0000_0000

  /** A block read as a big-endian number. */
  function Value(b: seq<byte>): nat {
    if b == [] then 0 else 256 * Value(b[..|b| - 1]) + b[|b| - 1] as nat
  }

  function Pow256(n: nat): (p: nat)
    ensures p > 0
  {
    if n == 0 then 1 else 256 * Pow256(n - 1)
  }

  lemma {:induction false} IncrementValue(b: seq<byte>)
    ensures Value(b) < Pow256(|b|)
    ensures Value(Increment(b)) == if Value(b) + 1 == Pow256(|b|) then 0 else Value(b) + 1
  {
    if b != [] {
      var k := |b| - 1;
      IncrementValue(b[..k]);
      ByteIncrement(b[k]);
      var r := Increment(b);
      assert r[..k] == if b[k] + 1 != 0 then b[..k] else Increment(b[..k]);
    }
  }

  lemma {:induction false} ValueInjective(a: seq<byte>, b: seq<byte>)
    requires |a| == |b| && Value(a) == Value(b)
    ensures a == b
  {
    if a != [] {
      var k := |a| - 1;
      ValueParts(a);
      ValueParts(b);
      hide Value;
      ByteInjective(a[k], b[k]);
      ValueInjective(a[..k], b[..k]);
      assert a == a[..k] + [a[k]] && b == b[..k] + [b[k]];
    }
  }

  /** The first byte weighs most. */
  lemma {:induction false} ValueFront(x: byte, b: seq<byte>)
    ensures Value([x] + b) == x as nat * Pow256(|b|) + Value(b)
  {
    var s := [x] + b;
    if b == [] {
      assert s[..0] == [] && s[0] == x;
      assert Value([]) == 0 && Pow256(0) == 1;
    } else {
      var k := |b| - 1;
      assert s[..k + 1] == [x] + b[..k] && s[k + 1] == b[k];
      ValueLast(s);
      ValueLast(b);
      assert Pow256(k + 1) == 256 * Pow256(k);
      hide Value, Pow256;
      ValueFront(x, b[..k]);
      Weighed(x as nat, Pow256(k));
    }
  }

  lemma ValueLast(s: seq<byte>)
    requires s != []
    ensures Value(s) == 256 * Value(s[..|s| - 1]) + s[|s| - 1] as nat
  {
  }

  lemma Weighed(x: nat, p: nat)
    ensures x * (256 * p) == 256 * (x * p)
  {
  }

  lemma ValueParts(a: seq<byte>)
    requires a != []
    ensures Value(a) / 256 == Value(a[..|a| - 1]) && Value(a) % 256 == a[|a| - 1] as nat
  {
    ByteIncrement(a[|a| - 1]);
  }

  lemma ByteInjective(x: byte, y: byte)
    requires x as nat == y as nat
    ensures x == y
  {
  }

  lemma CountersAre()
    ensures Pow256(BLOCK) == COUNTERS
  {
    assert Pow256(4) == 0x1_0000_0000;
    assert Pow256(8) == 0x1_0000_0000_0000_0000;
    assert Pow256(12) == 0x1_0000_0000_0000_0000_0000_0000;
  }

  /** The j-th counter block from iv on. */
  function Counter(iv: Block, j: nat): Block {
    if j == 0 then iv else Increment(Counter(iv, j - 1))
  }

  lemma ModNext(v: nat)
    ensures (v + 1) % COUNTERS == if v % COUNTERS + 1 == COUNTERS then 0 else v % COUNTERS + 1
  {
  }

  lemma {:induction false} CounterValue(iv: Block, j: nat)
    ensures Value(Counter(iv, j)) == (Value(iv) + j) % COUNTERS
  {
    hide Value, Pow256, Increment;
    CountersAre();
    IncrementValue(iv);
    if j > 0 {
      CounterValue(iv, j - 1);
      IncrementValue(Counter(iv, j - 1));
      ModNext(Value(iv) + j - 1);
    }
  }

  /** No counter block comes back before all of them have been used. */
  lemma CountersDistinct(iv: Block, i: nat, j: nat)
    requires i < j < i + COUNTERS
    ensures Counter(iv, i) != Counter(iv, j)
  {
    hide *;
    CounterValue(iv, i);
    CounterValue(iv, j);
    ResiduesDiffer(Value(iv), i, j);
  }

  lemma ResiduesDiffer(v: nat, i: nat, j: nat)
    requires i < j < i + COUNTERS
    ensures (v + i) % COUNTERS != (v + j) % COUNTERS
  {
  }

  /** Where CTR stands after k bytes, k lying in block j. */
  ghost predicate CtrAt(c: Perm, iv: Block, st: State, j: nat, r: nat) {
    && st.n == r < BLOCK
    && st.iv == Counter(iv, if r == 0 then j else j + 1)
    && (r > 0 ==> st.block == c.enc(Counter(iv, j)))
  }

  lemma CtrTurnIs(c: Perm, op: Operation, st: State, x: byte)
    requires Ok(st)
    ensures
      var t := Turn(c, CTR, op, st, x);
      && t.0.iv == (if st.n == 0 then Increment(st.iv) else st.iv)
      && t.0.block == (if st.n == 0 then c.enc(st.iv) else st.block)
      && t.0.n == (if st.n + 1 < BLOCK then st.n + 1 else 0)
      && t.1 == x ^ t.0.block[st.n]
  {
    hide Increment;
  }

  lemma CtrTurn(c: Perm, op: Operation, iv: Block, st: State, x: byte, j: nat, r: nat)
    requires CtrAt(c, iv, st, j, r)
    ensures
      var t := Turn(c, CTR, op, st, x);
      && t.1 == x ^ c.enc(Counter(iv, j))[r]
      && (if r + 1 < BLOCK then CtrAt(c, iv, t.0, j, r + 1) else CtrAt(c, iv, t.0, j + 1, 0))
  {
    CtrTurnIs(c, op, st, x);
    hide Turn, Increment;
    assert Counter(iv, j + 1) == Increment(Counter(iv, j));
  }

  lemma {:induction false} CtrReaches(c: Perm, op: Operation, st: State, s: seq<byte>, j: nat, r: nat)
    requires st.n == 0 && r < BLOCK && BLOCK * j + r <= |s|
    ensures CtrAt(c, st.iv, Run(c, CTR, op, st, s, BLOCK * j + r).0, j, r)
    decreases j, r
  {
    hide Turn, CtrAt;
    if j == 0 && r == 0 {
      assert CtrAt(c, st.iv, st, 0, 0) by {
        CtrStart(c, st);
      }
    } else {
      var k := BLOCK * j + r - 1;
      var (i, q) := if r > 0 then (j, r - 1) else (j - 1, BLOCK - 1);
      CtrReaches(c, op, st, s, i, q);
      CtrTurn(c, op, st.iv, Run(c, CTR, op, st, s, k).0, s[k], i, q);
    }
  }

  lemma CtrStart(c: Perm, st: State)
    requires st.n == 0
    ensures CtrAt(c, st.iv, st, 0, 0)
  {
  }

  /**
    * CTR from a fresh start is the mode of section 6.5: block j of the input,
    * either way, is masked by the cipher of the j-th counter block.
    */
  lemma CtrDefinition(c: Perm, op: Operation, st: State, s: seq<byte>, j: nat, r: nat)
    requires st.n == 0 && r < BLOCK && BLOCK * j + r < |s|
    ensures
      Run(c, CTR, op, st, s, |s|).1[BLOCK * j + r] == s[BLOCK * j + r] ^ c.enc(Counter(st.iv, j))[r]
  {
    hide Turn, CtrAt, Run;
    var k := BLOCK * j + r;
    RunKeeps(c, CTR, op, st, s, k, |s|);
    CtrReaches(c, op, st, s, j, r);
    CtrTurn(c, op, st.iv, Run(c, CTR, op, st, s, k).0, s[k], j, r);
  }
}
