/** base64.c: encoding, and the two-pass decoder (section 5.2 of RFC 1521). */
module Base64 {
  import opened Arith

  const CR: Byte := 13
  const LF: Byte := 10
  const SPACE: Byte := 32
  const PAD: Byte := 61

  datatype Error = None | BufferTooSmall | InvalidCharacter

  /** base64_enc_map. */
  function EncMap(v: nat): Byte
    requires v < 64
  {
    if v < 26 then 65 + v
    else if v < 52 then 97 + (v - 26)
    else if v < 62 then 48 + (v - 52)
    else if v == 62 then 43
    else 47
  }

  /** base64_dec_map, with 127 for what has no place in it. */
  function DecMap(c: Byte): nat {
    if 65 <= c <= 90 then c - 65
    else if 97 <= c <= 122 then c - 97 + 26
    else if 48 <= c <= 57 then c - 48 + 52
    else if c == 43 then 62
    else if c == 47 then 63
    else if c == PAD then 64
    else 127
  }

  // ---- Encoding ----

  function Sextet(b: seq<Byte>, k: nat): (v: nat)
    requires |b| == 3 && k < 4
    ensures v < 64
  {
    if k == 0 then b[0] / 4
    else if k == 1 then b[0] % 4 * 16 + b[1] / 16
    else if k == 2 then b[1] % 16 * 4 + b[2] / 64
    else b[2] % 64
  }

  function Four(b: seq<Byte>): (r: seq<Byte>)
    requires |b| == 3
    ensures |r| == 4
  {
    [EncMap(Sextet(b, 0)), EncMap(Sextet(b, 1)), EncMap(Sextet(b, 2)), EncMap(Sextet(b, 3))]
  }

  function Encoded(m: seq<Byte>): (r: seq<Byte>)
    ensures |r| == 4 * ((|m| + 2) / 3)
  {
    if m == [] then []
    else if |m| == 1 then Four([m[0], 0, 0])[..2] + [PAD, PAD]
    else if |m| == 2 then Four([m[0], m[1], 0])[..3] + [PAD]
    else Four(m[..3]) + Encoded(m[3..])
  }

  // ---- Decoding: the second pass ----

  predicate Blank(c: Byte) {
    c == CR || c == LF || c == SPACE
  }

  /** j counts down with every pad, n characters of a group have come, x holds their bits. */
  datatype State = State(j: int, n: nat, x: nat, out: seq<Byte>)

  const WORD: nat := 0x1_0000_0000

  const START := State(3, 0, 0, [])

  /** The bytes of a full group that are written. */
  function Group(j: int, x: nat): (r: seq<Byte>)
    ensures |r| == if j <= 0 then 0 else if j >= 3 then 3 else j
  {
    var b := [x / 0x1_0000 % 256, x / 0x100 % 256, x % 256];
    b[..if j <= 0 then 0 else if j >= 3 then 3 else j]
  }

  function Step(st: State, c: Byte): State {
    if Blank(c) then st else
      var j := if DecMap(c) == 64 then st.j - 1 else st.j;
      var x := (st.x * 64 + DecMap(c) % 64) % WORD;
      if st.n + 1 == 4 then State(j, 0, x, st.out + Group(j, x)) else State(j, st.n + 1, x, st.out)
  }

  function Run(st: State, s: seq<Byte>): State {
    if s == [] then st else Step(Run(st, s[..|s| - 1]), s[|s| - 1])
  }

  lemma {:induction false} RunSplit(st: State, a: seq<Byte>, b: seq<Byte>)
    ensures Run(st, a + b) == Run(Run(st, a), b)
  {
    hide Step;
    if b == [] {
      assert a + b == a;
    } else {
      RunSplit(st, a, b[..|b| - 1]);
      assert (a + b)[..|a + b| - 1] == a + b[..|b| - 1];
    }
  }

  lemma DecEnc(v: nat)
    requires v < 64
    ensures DecMap(EncMap(v)) == v && !Blank(EncMap(v)) && EncMap(v) != PAD
  {
  }

  /** Four characters in a row, none of them blank. */
  lemma RunFour(st: State, s: seq<Byte>)
    requires |s| == 4 && forall k :: 0 <= k < 4 ==> !Blank(s[k])
    ensures Run(st, s) == Step(Step(Step(Step(st, s[0]), s[1]), s[2]), s[3])
  {
    hide Step;
    assert s[..3][..2] == s[..2] && s[..2][..1] == s[..1] && s[..1][..0] == [];
    assert Run(st, s[..1]) == Step(st, s[0]);
    assert Run(st, s[..2]) == Step(Step(st, s[0]), s[1]);
    assert Run(st, s[..3]) == Step(Step(Step(st, s[0]), s[1]), s[2]);
  }

  /** What four sextets hold. */
  function Bits(v: seq<nat>): nat
    requires |v| == 4
  {
    v[0] * 0x4_0000 + v[1] * 0x1000 + v[2] * 0x40 + v[3]
  }

  /** Bits above the ones that matter neither come in by the shift nor go out by the wrap. */
  lemma ShiftIn(x: nat, v: nat, k: nat)
    requires v < 64 && k < 4
    ensures (x * 64 + v) % WORD % Low(k + 1) == x % Low(k) * 64 + v
  {
    var y := x * 64 + v;
    var h, l, q := x / Low(k), x % Low(k), y / WORD;
    Reassociate(k, h, q);
    DivUnique(y % WORD, Low(k + 1), h - WORD / Low(k + 1) * q, l * 64 + v);
  }

  lemma Reassociate(k: nat, h: int, q: int)
    requires k < 4
    ensures Low(k + 1) * (h - WORD / Low(k + 1) * q) == 64 * (Low(k) * h) - WORD * q
    ensures Low(k + 1) == 64 * Low(k)
  {
    if k == 0 {
      assert Low(1) == 0x40;
    } else if k == 1 {
      assert Low(2) == 0x1000;
    } else if k == 2 {
      assert Low(3) == 0x4_0000;
    } else {
      assert Low(4) == 0x100_0000;
    }
  }

  function Low(k: nat): (m: nat)
    requires k <= 4
    ensures m > 0
  {
    if k == 0 then 1 else if k == 1 then 0x40 else if k == 2 then 0x1000 else if k == 3 then 0x4_0000 else 0x100_0000
  }

  lemma HighBits(x: nat, h: nat, y: nat)
    requires x == 0x100_0000 * h + y
    ensures x / 0x1_0000 % 256 == y / 0x1_0000 % 256
    ensures x / 0x100 % 256 == y / 0x100 % 256
    ensures x % 256 == y % 256
  {
    assert x / 0x1_0000 == 256 * h + y / 0x1_0000;
    assert x / 0x100 == 0x1_0000 * h + y / 0x100;
  }

  lemma GroupLow(j: int, x: nat, y: nat)
    requires x % 0x100_0000 == y
    ensures Group(j, x) == Group(j, y)
  {
    var h := x / 0x100_0000;
    HighBits(x, h, y);
  }

  function Pads(s: seq<Byte>): nat {
    if s == [] then 0 else Pads(s[..|s| - 1]) + if DecMap(s[|s| - 1]) == 64 then 1 else 0
  }

  function Values(s: seq<Byte>): (v: seq<nat>)
    ensures |v| == |s|
    ensures forall k :: 0 <= k < |s| ==> v[k] < 64
  {
    seq(|s|, k requires 0 <= k < |s| => DecMap(s[k]) % 64)
  }

  /** A whole group of characters: its bits are decoded, as far as the pads allow. */
  lemma RunGroup(st: State, s: seq<Byte>, e: nat)
    requires |s| == 4 && st.n == 0 && forall k :: 0 <= k < 4 ==> !Blank(s[k])
    requires e == (if DecMap(s[2]) == 64 then 1 else 0) + (if DecMap(s[3]) == 64 then 1 else 0)
    requires DecMap(s[0]) != 64 && DecMap(s[1]) != 64
    ensures
      var r := Run(st, s);
      r.j == st.j - e && r.n == 0 && r.out == st.out + Group(st.j - e, Bits(Values(s)))
  {
    RunFour(st, s);
    var v := Values(s);
    var x := Shifted(Shifted(Shifted(Shifted(st.x, v[0]), v[1]), v[2]), v[3]);
    var s3 := Step(Step(Step(st, s[0]), s[1]), s[2]);
    assert s3.n == 3 && s3.x == Shifted(Shifted(Shifted(st.x, v[0]), v[1]), v[2]) && s3.out == st.out;
    assert s3.j == st.j - if DecMap(s[2]) == 64 then 1 else 0;
    assert Step(s3, s[3]) == State(st.j - e, 0, x, st.out + Group(st.j - e, x));
    hide Run, Blank, DecMap, Group, Step, Shifted;
    FourShifts(st.x, v);
    GroupLow(st.j - e, x, Bits(v));
  }

  function Shifted(x: nat, v: nat): nat {
    (x * 64 + v) % WORD
  }

  lemma FourShifts(x: nat, v: seq<nat>)
    requires |v| == 4 && v[0] < 64 && v[1] < 64 && v[2] < 64 && v[3] < 64
    ensures Shifted(Shifted(Shifted(Shifted(x, v[0]), v[1]), v[2]), v[3]) % 0x100_0000 == Bits(v)
  {
    var x1 := Shifted(x, v[0]);
    var x2 := Shifted(x1, v[1]);
    var x3 := Shifted(x2, v[2]);
    ShiftIn(x, v[0], 0);
    ShiftIn(x1, v[1], 1);
    ShiftIn(x2, v[2], 2);
    ShiftIn(x3, v[3], 3);
  }

  lemma BitsBack(b0: int, b1: int, b2: int)
    requires 0 <= b0 < 256 && 0 <= b1 < 256 && 0 <= b2 < 256
    ensures
      var y := b0 * 0x1_0000 + b1 * 0x100 + b2;
      && y / 0x1_0000 % 256 == b0 && y / 0x100 % 256 == b1 && y % 256 == b2
      && y == b0 / 4 * 0x4_0000 + (b0 % 4 * 16 + b1 / 16) * 0x1000 + (b1 % 16 * 4 + b2 / 64) * 0x40 + b2 % 64
  {
    var y := b0 * 0x1_0000 + b1 * 0x100 + b2;
    assert y / 0x1_0000 == b0 && y / 0x100 == b0 * 256 + b1;
  }

  /** The sextets of three bytes put together are the three bytes. */
  lemma SextetsBack(b: seq<Byte>, v: seq<nat>)
    requires |b| == 3 && |v| == 4 && forall k :: 0 <= k < 4 ==> v[k] == Sextet(b, k)
    ensures Group(3, Bits(v)) == b && Group(2, Bits(v)) == b[..2] && Group(1, Bits(v)) == b[..1]
  {
    var b0: int, b1: int, b2: int := b[0], b[1], b[2];
    BitsBack(b0, b1, b2);
    assert Bits(v) == b0 * 0x1_0000 + b1 * 0x100 + b2;
  }

  /** s is the group for the first n of the three bytes b, the others being 0. */
  predicate IsGroup(s: seq<Byte>, b: seq<Byte>, n: nat) {
    && |s| == 4 && |b| == 3 && 1 <= n <= 3
    && (forall k :: 0 <= k < 4 ==> !Blank(s[k]) && DecMap(s[k]) % 64 == Sextet(b, k) && DecMap(s[k]) <= 64)
    && (forall k :: 0 <= k < 4 ==> (DecMap(s[k]) == 64 <==> k > n))
  }

  lemma FullIsGroup(b: seq<Byte>)
    requires |b| == 3
    ensures IsGroup(Four(b), b, 3)
  {
    var s := Four(b);
    forall k | 0 <= k < 4 ensures !Blank(s[k]) && DecMap(s[k]) % 64 == Sextet(b, k) && DecMap(s[k]) < 64 {
      DecEnc(Sextet(b, k));
      hide DecMap, EncMap, Blank, Sextet;
      assert s[k] == EncMap(Sextet(b, k));
    }
  }

  lemma PaddedIsGroup(b: seq<Byte>, n: nat)
    requires |b| == 3 && 1 <= n <= 2 && b[2] == 0 && (n == 1 ==> b[1] == 0)
    ensures IsGroup(Four(b)[..n + 1] + if n == 1 then [PAD, PAD] else [PAD], b, n)
  {
    var s := Four(b)[..n + 1] + if n == 1 then [PAD, PAD] else [PAD];
    assert Sextet(b, 3) == 0 && (n == 1 ==> Sextet(b, 2) == 0);
    assert DecMap(PAD) == 64 && !Blank(PAD);
    forall k | 0 <= k < 4
      ensures !Blank(s[k]) && DecMap(s[k]) % 64 == Sextet(b, k) && DecMap(s[k]) <= 64 && (DecMap(s[k]) == 64 <==> k > n)
    {
      DecEnc(Sextet(b, k));
      hide DecMap, EncMap, Blank, Sextet;
      assert s[k] == if k > n then PAD else EncMap(Sextet(b, k));
    }
  }

  /** A group gives its bytes back. */
  lemma RunIsGroup(st: State, s: seq<Byte>, b: seq<Byte>, n: nat)
    requires IsGroup(s, b, n) && st.n == 0 && st.j == 3
    ensures Run(st, s).n == 0 && Run(st, s).j == n && Run(st, s).out == st.out + b[..n]
  {
    hide DecMap, Run, Bits, Group, Sextet, Blank;
    RunGroup(st, s, 3 - n);
    SextetsBack(b, Values(s));
    assert b[..3] == b;
  }

  /** Decoding what was encoded. */
  lemma {:induction false} RunEncoded(st: State, m: seq<Byte>)
    requires st.n == 0 && st.j == 3
    ensures Run(st, Encoded(m)).out == st.out + m
    decreases |m|
  {
    hide Run, Four, IsGroup;
    if m == [] {
      RunNothing(st);
    } else if |m| <= 2 {
      var b := if |m| == 1 then [m[0], 0, 0] else [m[0], m[1], 0];
      PaddedIsGroup(b, |m|);
      RunIsGroup(st, Encoded(m), b, |m|);
      assert b[..|m|] == m;
    } else {
      FullIsGroup(m[..3]);
      RunIsGroup(st, Four(m[..3]), m[..3], 3);
      RunSplit(st, Four(m[..3]), Encoded(m[3..]));
      RunEncoded(Run(st, Four(m[..3])), m[3..]);
      assert m == m[..3] + m[3..];
    }
  }

  lemma RunNothing(st: State)
    ensures Run(st, []) == st && st.out + [] == st.out
  {
  }

  // ---- Decoding: the first pass ----

  datatype Check = Valid(n: nat, j: nat) | Invalid

  function Spaces(t: seq<Byte>): (k: nat)
    ensures k <= |t|
    ensures k < |t| ==> t[k] != SPACE
  {
    if t == [] || t[0] != SPACE then 0 else 1 + Spaces(t[1..])
  }

  /** The first pass over the rest t of the text, with n characters and j pads so far. */
  function Scan(t: seq<Byte>, n: nat, j: nat): Check
    decreases |t|
  {
    var x := Spaces(t);
    if x == |t| then Valid(n, j)
    else if x + 2 <= |t| && t[x] == CR && t[x + 1] == LF then Scan(t[x + 1..], n, j)
    else if t[x] == LF then Scan(t[x + 1..], n, j)
    else if x != 0 then Invalid
    else
      var k := if t[x] == PAD then j + 1 else j;
      if (t[x] == PAD && k > 2) || DecMap(t[x]) == 127 || (DecMap(t[x]) < 64 && k != 0) then Invalid
      else Scan(t[x + 1..], n + 1, k)
  }

  /** The text without blanks. */
  function Clean(t: seq<Byte>): (r: seq<Byte>)
    ensures |r| <= |t|
  {
    if t == [] then [] else if Blank(t[0]) then Clean(t[1..]) else [t[0]] + Clean(t[1..])
  }

  /** The second pass takes no notice of blanks. */
  lemma {:induction false} RunClean(st: State, t: seq<Byte>)
    ensures Run(st, t) == Run(st, Clean(t))
    decreases |t|
  {
    if t != [] {
      assert t == [t[0]] + t[1..];
      RunSplit(st, [t[0]], t[1..]);
      RunOne(st, t[0]);
      RunClean(Run(st, [t[0]]), t[1..]);
      if !Blank(t[0]) {
        RunSplit(st, [t[0]], Clean(t[1..]));
      }
    }
  }

  lemma RunOne(st: State, c: Byte)
    ensures Run(st, [c]) == Step(st, c)
  {
    assert [c][..0] == [];
  }

  /** d characters of the alphabet, then e pads. */
  predicate Shape(c: seq<Byte>, d: nat, e: nat) {
    && |c| == d + e
    && (forall k :: 0 <= k < d ==> DecMap(c[k]) < 64)
    && (forall k :: d <= k < |c| ==> c[k] == PAD)
  }

  lemma {:induction false} CleanSkips(t: seq<Byte>, x: nat)
    requires x <= Spaces(t)
    ensures Clean(t) == Clean(t[x..])
    decreases |t|
  {
    if x > 0 {
      CleanSkips(t[1..], x - 1);
      assert t[1..][x - 1..] == t[x..];
    }
  }

  /** Blanks stand where a line may end: spaces only before a line end or at the very end, CR only before LF. */
  predicate WellBroken(t: seq<Byte>)
    decreases |t|
  {
    var x := Spaces(t);
    x == |t| || (AtBreak(t, x) && WellBroken(t[x + 1..]))
  }

  predicate LineEnd(t: seq<Byte>, x: nat)
    requires x < |t|
  {
    t[x] == LF || (t[x] == CR && x + 1 < |t| && t[x + 1] == LF)
  }

  predicate AtBreak(t: seq<Byte>, x: nat)
    requires x < |t|
  {
    LineEnd(t, x) || (x == 0 && !Blank(t[0]))
  }

  /** A character that may come next, after j pads. */
  predicate Takes(c: Byte, j: nat) {
    DecMap(c) != 127 && (c == PAD ==> j < 2) && (DecMap(c) < 64 ==> j == 0)
  }

  lemma ScanStep(t: seq<Byte>, n: nat, j: nat)
    requires Spaces(t) < |t|
    ensures
      var x := Spaces(t);
      Scan(t, n, j) ==
        if LineEnd(t, x) then Scan(t[x + 1..], n, j)
        else if x != 0 || !Takes(t[0], j) then Invalid
        else Scan(t[1..], n + 1, if t[0] == PAD then j + 1 else j)
  {
  }

  /** The rest of the text fits what has come so far: the pads stay at the end, and at most two. */
  predicate Fits(c: seq<Byte>, j: nat, e: nat) {
    e <= |c| && j + e <= 2 && Shape(c, |c| - e, e) && (j > 0 ==> |c| == e)
  }

  lemma CleanStep(t: seq<Byte>, x: nat)
    requires x == Spaces(t) < |t|
    ensures Clean(t) == if Blank(t[x]) then Clean(t[x + 1..]) else [t[x]] + Clean(t[x + 1..])
  {
    CleanSkips(t, x);
    assert t[x..][1..] == t[x + 1..];
  }

  lemma AtTheEnd(t: seq<Byte>, n: nat, j: nat)
    requires Spaces(t) == |t|
    ensures WellBroken(t) && Clean(t) == [] && Scan(t, n, j) == Valid(n, j)
    ensures forall e: nat :: Fits([], j, e) <==> e == 0 && j <= 2
  {
    CleanSkips(t, |t|);
    assert t[|t|..] == [];
  }

  /** At a line end, which the first pass, the blanks and the line breaks all step over. */
  lemma AtLineEnd(t: seq<Byte>, x: nat, n: nat, j: nat)
    requires x == Spaces(t) < |t| && LineEnd(t, x)
    ensures Clean(t) == Clean(t[x + 1..]) && Scan(t, n, j) == Scan(t[x + 1..], n, j)
    ensures WellBroken(t) <==> WellBroken(t[x + 1..])
  {
    CleanStep(t, x);
    ScanStep(t, n, j);
    hide Clean, Scan, Spaces;
  }

  /** At anything else. */
  lemma AtCharacter(t: seq<Byte>, x: nat, n: nat, j: nat)
    requires x == Spaces(t) < |t| && !LineEnd(t, x)
    ensures WellBroken(t) <==> x == 0 && !Blank(t[0]) && WellBroken(t[1..])
    ensures Scan(t, n, j).Valid? ==> x == 0 && Takes(t[0], j)
    ensures x == 0 && Takes(t[0], j) ==> Scan(t, n, j) == Scan(t[1..], n + 1, if t[0] == PAD then j + 1 else j)
    ensures x == 0 && !Blank(t[0]) ==> Clean(t) == [t[0]] + Clean(t[1..])
  {
    CleanStep(t, x);
    ScanStep(t, n, j);
    hide Clean, Scan, Spaces, Takes;
  }

  /** Accepted text is alphabet characters followed by at most two pads, and well broken. */
  lemma {:induction false} ScanShape(t: seq<Byte>, n: nat, j: nat)
    requires j <= 2 && Scan(t, n, j).Valid?
    ensures
      var r := Scan(t, n, j);
      WellBroken(t) && r.n == n + |Clean(t)| && j <= r.j && Fits(Clean(t), j, r.j - j)
    decreases |t|
  {
    var x := Spaces(t);
    hide Clean, Spaces, WellBroken, Fits, Scan, LineEnd, Blank;
    if x == |t| {
      AtTheEnd(t, n, j);
    } else {
      if LineEnd(t, x) {
        AtLineEnd(t, x, n, j);
        ScanShape(t[x + 1..], n, j);
      } else {
        AtCharacter(t, x, n, j);
        var k := if t[0] == PAD then j + 1 else j;
        ScanShape(t[1..], n + 1, k);
        ShapeGrows(t[0], Clean(t[1..]), j, Scan(t, n, j).j - k);
      }
    }
  }

  lemma ShapeGrows(x: Byte, c: seq<Byte>, j: nat, e: nat)
    requires Takes(x, j)
    requires Fits(c, if x == PAD then j + 1 else j, e)
    ensures !Blank(x) && Fits([x] + c, j, if x == PAD then e + 1 else e)
  {
    var y := [x] + c;
    assert forall k :: 0 < k < |y| ==> y[k] == c[k - 1];
  }

  lemma ShapeShrinks(c: seq<Byte>, j: nat, e: nat)
    requires c != [] && Fits(c, j, e)
    ensures Takes(c[0], j)
    ensures c[0] == PAD ==> e > 0 && Fits(c[1..], j + 1, e - 1)
    ensures c[0] != PAD ==> Fits(c[1..], j, e)
  {
  }

  /** And all such text is accepted, with its characters and pads counted. */
  lemma {:induction false} ScanAccepts(t: seq<Byte>, n: nat, j: nat, e: nat)
    requires WellBroken(t) && Fits(Clean(t), j, e)
    ensures Scan(t, n, j) == Valid(n + |Clean(t)|, j + e)
    decreases |t|
  {
    var x := Spaces(t);
    hide Clean, Spaces, WellBroken, Fits, Scan, LineEnd, Blank, Takes;
    if x == |t| {
      AtTheEnd(t, n, j);
    } else {
      if LineEnd(t, x) {
        AtLineEnd(t, x, n, j);
        ScanAccepts(t[x + 1..], n, j, e);
      } else {
        AtCharacter(t, x, n, j);
        ShapeShrinks(Clean(t), j, e);
        assert Clean(t)[1..] == Clean(t[1..]);
        var pad := if t[0] == PAD then 1 else 0;
        ScanAccepts(t[1..], n + 1, j + pad, e - pad);
      }
    }
  }

  /**
    * What base64_decode accepts: text whose blanks stand at line ends and whose
    * other characters are of the alphabet, followed by at most two pads.
    */
  lemma AcceptsExactly(t: seq<Byte>)
    ensures Scan(t, 0, 0).Valid? <==> WellBroken(t) && exists e: nat :: Fits(Clean(t), 0, e)
  {
    if Scan(t, 0, 0).Valid? {
      ScanShape(t, 0, 0);
      assert Fits(Clean(t), 0, Scan(t, 0, 0).j);
    }
    if WellBroken(t) && exists e: nat :: Fits(Clean(t), 0, e) {
      var e: nat :| Fits(Clean(t), 0, e);
      ScanAccepts(t, 0, 0, e);
    }
  }

  /** t is c with LF or CR LF put in anywhere. */
  predicate Broken(t: seq<Byte>, c: seq<Byte>)
    decreases |t|
  {
    if t == [] then c == []
    else if t[0] == LF then Broken(t[1..], c)
    else if t[0] == CR then |t| >= 2 && t[1] == LF && Broken(t[2..], c)
    else c != [] && t[0] == c[0] && Broken(t[1..], c[1..])
  }

  lemma {:induction false} BrokenIsWell(t: seq<Byte>, c: seq<Byte>)
    requires Broken(t, c) && forall k :: 0 <= k < |c| ==> !Blank(c[k])
    ensures WellBroken(t) && Clean(t) == c
    decreases |t|
  {
    if t == [] {
    } else if t[0] == LF {
      BrokenIsWell(t[1..], c);
    } else if t[0] == CR {
      BrokenIsWell(t[2..], c);
      assert t[1..][1..] == t[2..];
      assert WellBroken(t[1..]) && Clean(t[1..]) == c;
    } else {
      BrokenIsWell(t[1..], c[1..]);
      assert c == [c[0]] + c[1..];
    }
  }

  lemma {:induction false} EncodedShape(m: seq<Byte>) returns (e: nat)
    ensures Fits(Encoded(m), 0, e)
    ensures forall k :: 0 <= k < |Encoded(m)| ==> !Blank(Encoded(m)[k])
    decreases |m|
  {
    hide Four, Fits;
    if m == [] {
      e := 0;
      FitsEmpty();
    } else if |m| <= 2 {
      e := 3 - |m|;
      var b := if |m| == 1 then [m[0], 0, 0] else [m[0], m[1], 0];
      PaddedIsGroup(b, |m|);
      GroupFits(Encoded(m), b, |m|);
    } else {
      e := EncodedShape(m[3..]);
      FullIsGroup(m[..3]);
      GroupFits(Four(m[..3]), m[..3], 3);
      FitsAfter(Four(m[..3]), Encoded(m[3..]), e);
    }
  }

  lemma FitsEmpty()
    ensures Fits([], 0, 0)
  {
  }

  lemma GroupFits(s: seq<Byte>, b: seq<Byte>, n: nat)
    requires IsGroup(s, b, n)
    requires forall k :: n < k < 4 ==> s[k] == PAD
    ensures Fits(s, 0, 3 - n) && forall k :: 0 <= k < 4 ==> !Blank(s[k])
  {
  }

  lemma FitsAfter(s: seq<Byte>, c: seq<Byte>, e: nat)
    requires Fits(s, 0, 0) && Fits(c, 0, e)
    ensures Fits(s + c, 0, e)
  {
  }

  /**
    * Decoding what was encoded, with line breaks put in anywhere: the text is
    * accepted and the second pass gives the message.
    */
  lemma RoundTrip(m: seq<Byte>, t: seq<Byte>)
    requires Broken(t, Encoded(m))
    ensures Scan(t, 0, 0).Valid? && Scan(t, 0, 0).n == |Encoded(m)|
    ensures Run(START, t).out == m
  {
    var e := EncodedShape(m);
    BrokenIsWell(t, Encoded(m));
    ScanAccepts(t, 0, 0, e);
    RunClean(START, t);
    RunEncoded(START, m);
    assert [] + m == m;
  }

  // ---- The first pass bounds the second ----

  /** The output length after k of d characters and two pads at most. */
  function Written(k: nat, d: nat): int {
    if k <= d then 3 * (k / 4)
    else if k % 4 == 0 then 3 * (k / 4) - (k - d)
    else if k == d + 2 && k % 4 == 1 then 3 * (k / 4) - 1
    else 3 * (k / 4)
  }

  lemma {:induction false} RunLength(c: seq<Byte>, e: nat, k: nat)
    requires Fits(c, 0, e) && k <= |c|
    ensures
      var r := Run(START, c[..k]);
      var d := |c| - e;
      r.n == k % 4 && r.j == 3 - (if k <= d then 0 else k - d) && |r.out| == Written(k, d)
    decreases k
  {
    if k > 0 {
      RunLength(c, e, k - 1);
      assert c[..k][..k - 1] == c[..k - 1] && c[..k][k - 1] == c[k - 1];
      StepLength(Run(START, c[..k - 1]), c, e, k - 1);
    }
  }

  lemma StepLength(st: State, c: seq<Byte>, e: nat, k: nat)
    requires Fits(c, 0, e) && k < |c| && !Blank(c[k])
    requires
      var d := |c| - e;
      st.n == k % 4 && st.j == 3 - (if k <= d then 0 else k - d) && |st.out| == Written(k, d)
    ensures
      var r := Step(st, c[k]);
      var d := |c| - e;
      r.n == (k + 1) % 4 && r.j == 3 - (if k + 1 <= d then 0 else k + 1 - d) && |r.out| == Written(k + 1, d)
  {
    StepIs(st, c[k]);
    assert DecMap(c[k]) == 64 <==> k >= |c| - e;
    WrittenStep(k, |c| - e);
    hide Group, Written, Step, DecMap, Shape;
  }

  lemma StepIs(st: State, c: Byte)
    requires !Blank(c)
    ensures
      var r := Step(st, c);
      && r.j == (if DecMap(c) == 64 then st.j - 1 else st.j)
      && r.n == (if st.n + 1 == 4 then 0 else st.n + 1)
      && |r.out| == |st.out| + if st.n + 1 == 4 then GroupSize(r.j) else 0
  {
  }

  function GroupSize(j: int): nat {
    if j <= 0 then 0 else if j >= 3 then 3 else j
  }

  lemma WrittenStep(k: nat, d: nat)
    requires k < d + 2
    ensures
      var j := 3 - if k + 1 <= d then 0 else k + 1 - d;
      Written(k + 1, d) == Written(k, d) + if k % 4 + 1 == 4 then GroupSize(j) else 0
  {
  }

  /** What base64_decode asks for in *dlen. */
  function Needed(n: nat, j: nat): int {
    (n * 6 + 7) / 8 - j
  }

  lemma WrittenFits(n: nat, e: nat)
    requires e <= 2 && e <= n
    ensures Written(n, n - e) <= Needed(n, e) && Needed(n, e) >= 0
  {
  }

  /** For every accepted text the second pass writes no more than the first pass asked for. */
  lemma SecondPassFits(t: seq<Byte>)
    requires Scan(t, 0, 0).Valid?
    ensures |Run(START, t).out| <= Needed(Scan(t, 0, 0).n, Scan(t, 0, 0).j)
  {
    ScanShape(t, 0, 0);
    var r := Scan(t, 0, 0);
    RunClean(START, t);
    var c := Clean(t);
    RunLength(c, r.j, |c|);
    assert c[..|c|] == c;
    WrittenFits(|c|, r.j);
  }

  // ---- The two functions of base64.c ----

  /** base64_encode. */
  method Encode(dst: array<Byte>, dlen: nat, src: array<Byte>) returns (err: Error, dlenOut: nat)
    requires dlen <= dst.Length && dst != src
    modifies dst
    ensures src.Length == 0 ==> err == None && dlenOut == dlen && dst[..] == old(dst[..])
    ensures src.Length > 0 ==>
      var n := |Encoded(src[..])|;
      && err == (if dlen < n + 1 then BufferTooSmall else None)
      && (err != None ==> dlenOut == n + 1 && dst[..] == old(dst[..]))
      && (err == None ==> dlenOut == n && dst[..] == Encoded(src[..]) + [0] + old(dst[n + 1..]))
  {
    if src.Length == 0 {
      return None, dlen;
    }
    var n := EncodedSize(src.Length);
    hide Encoded;
    if dlen < n + 1 {
      return BufferTooSmall, n + 1;
    }
    ghost var before := dst[..];
    var p := EncodeAll(dst, src);
    dst[p] := 0;
    assert dst[..] == Encoded(src[..]) + [0] + before[p..][1..];
    return None, p;
  }

  /** The number of characters, from the number of bits. */
  method EncodedSize(slen: nat) returns (n: nat)
    ensures n == 4 * ((slen + 2) / 3)
  {
    n := slen * 8 / 6;
    match slen * 8 - n * 6
    case 2 => n := n + 3;
    case 4 => n := n + 2;
    case _ =>
  }

  lemma EncodedTail(s: seq<Byte>, i: nat)
    requires i + 3 <= |s|
    ensures Encoded(s[i..]) == Four(s[i..i + 3]) + Encoded(s[i + 3..])
  {
    assert s[i..][..3] == s[i..i + 3] && s[i..][3..] == s[i + 3..];
  }

  /** The first p characters of the encoding of s stand in out; the bytes from i on are to do. */
  ghost predicate EncodeAt(s: seq<Byte>, i: nat, p: nat, out: seq<Byte>, before: seq<Byte>) {
    && i <= |s| && p <= |out| == |before|
    && out[..p] + Encoded(s[i..]) == Encoded(s)
    && out[p..] == before[p..]
  }

  lemma EncodeNothing(s: seq<Byte>, out: seq<Byte>)
    ensures EncodeAt(s, 0, 0, out, out)
  {
    hide Encoded;
    assert s[0..] == s && [] + Encoded(s) == Encoded(s);
  }

  /** The loop over triples and the padded end. */
  method EncodeAll(dst: array<Byte>, src: array<Byte>) returns (p: nat)
    requires dst != src && |Encoded(src[..])| <= dst.Length
    modifies dst
    ensures p == |Encoded(src[..])|
    ensures dst[..] == Encoded(src[..]) + old(dst[p..])
  {
    hide Encoded, EncodeAt;
    ghost var s, before := src[..], dst[..];
    EncodeNothing(s, before);
    var n := src.Length / 3 * 3;
    var i := 0;
    ghost var k, triples := 0, src.Length / 3;
    p := 0;
    while i < n
      invariant i == 3 * k && k <= triples && src[..] == s
      invariant EncodeAt(s, i, p, dst[..], before)
    {
      p := EncodeTriple(dst, p, src[i], src[i + 1], src[i + 2], i, s, before);
      i, k := i + 3, k + 1;
    }
    p := EncodeEnd(dst, p, src, i, s, before);
  }

  method PutFour(dst: array<Byte>, p: nat, a: Byte, b: Byte, c: Byte, d: Byte)
    requires p + 4 <= dst.Length
    modifies dst
    ensures dst[..p + 4] == old(dst[..p]) + [a, b, c, d] && dst[p + 4..] == old(dst[p + 4..])
  {
    ghost var front := dst[..p];
    dst[p], dst[p + 1], dst[p + 2], dst[p + 3] := a, b, c, d;
    assert dst[..p + 4] == front + [a, b, c, d];
  }

  lemma EncodeMore(s: seq<Byte>, i: nat, p: nat, out: seq<Byte>, before: seq<Byte>, k: nat, four: seq<Byte>, now: seq<Byte>)
    requires EncodeAt(s, i, p, out, before) && |four| == 4 && |Encoded(s)| <= |out| == |now| && i + k <= |s|
    requires Encoded(s[i..]) == four + Encoded(s[i + k..])
    ensures p + 4 <= |out|
    ensures now[..p + 4] == out[..p] + four && now[p + 4..] == out[p + 4..] ==> EncodeAt(s, i + k, p + 4, now, before)
  {
    hide Encoded;
    var rest := Encoded(s[i + k..]);
    assert |Encoded(s)| == p + 4 + |rest|;
    assert out[p + 4..] == out[p..][4..] && before[p + 4..] == before[p..][4..];
    assert (out[..p] + four) + rest == out[..p] + (four + rest);
  }

  lemma FourIs(b: seq<Byte>, c1: int, c2: int, c3: int)
    requires |b| == 3 && c1 == b[0] && c2 == b[1] && c3 == b[2]
    ensures Four(b) == [EncMap(c1 / 4 % 64), EncMap((c1 % 4 * 16 + c2 / 16) % 64),
                        EncMap((c2 % 16 * 4 + c3 / 64) % 64), EncMap(c3 % 64)]
  {
    hide EncMap;
    assert Sextet(b, 0) == c1 / 4 % 64 && Sextet(b, 1) == (c1 % 4 * 16 + c2 / 16) % 64;
    assert Sextet(b, 2) == (c2 % 16 * 4 + c3 / 64) % 64 && Sextet(b, 3) == c3 % 64;
  }

  /** Three bytes to four characters. */
  method EncodeTriple(dst: array<Byte>, p: nat, b1: Byte, b2: Byte, b3: Byte,
                      ghost i: nat, ghost s: seq<Byte>, ghost before: seq<Byte>)
    returns (next: nat)
    requires i + 3 <= |s| && b1 == s[i] && b2 == s[i + 1] && b3 == s[i + 2] && |Encoded(s)| <= dst.Length
    requires EncodeAt(s, i, p, dst[..], before)
    modifies dst
    ensures next == p + 4 && EncodeAt(s, i + 3, next, dst[..], before)
  {
    EncodedTail(s, i);
    ghost var out := dst[..];
    ghost var four := Four(s[i..i + 3]);
    var c1: int, c2: int, c3: int := b1, b2, b3;
    var v1, v2, v3, v4 := c1 / 4 % 64, (c1 % 4 * 16 + c2 / 16) % 64, (c2 % 16 * 4 + c3 / 64) % 64, c3 % 64;
    FourIs(s[i..i + 3], c1, c2, c3);
    hide Encoded, EncMap, Four, EncodeAt;
    EncodeMore(s, i, p, out, before, 3, four, out);
    PutFour(dst, p, EncMap(v1), EncMap(v2), EncMap(v3), EncMap(v4));
    EncodeMore(s, i, p, out, before, 3, four, dst[..]);
    next := p + 4;
  }

  lemma EncodedEnd(s: seq<Byte>, i: nat, c1: int, c2: int)
    requires i < |s| <= i + 2 && c1 == s[i] && c2 == if i + 1 < |s| then s[i + 1] else 0
    ensures Encoded(s[i..]) == [EncMap(c1 / 4 % 64), EncMap((c1 % 4 * 16 + c2 / 16) % 64),
                                if i + 1 < |s| then EncMap(c2 % 16 * 4 % 64) else PAD, PAD] + Encoded(s[|s|..])
  {
    assert s[|s|..] == [];
    if i + 1 < |s| {
      assert s[i..] == [c1, c2];
      EncodedTwo(c1, c2);
    } else {
      assert s[i..] == [c1];
      EncodedOne(c1);
    }
  }

  lemma EncodedOne(c: Byte)
    ensures Encoded([c]) == [EncMap(c / 4 % 64), EncMap(c % 4 * 16 % 64), PAD, PAD]
  {
    hide EncMap;
    var b: seq<Byte> := [c, 0, 0];
    assert Four(b)[..2] == [EncMap(Sextet(b, 0)), EncMap(Sextet(b, 1))];
  }

  lemma EncodedTwo(c: Byte, d: Byte)
    ensures Encoded([c, d]) == [EncMap(c / 4 % 64), EncMap((c % 4 * 16 + d / 16) % 64), EncMap(d % 16 * 4 % 64), PAD]
  {
    hide EncMap;
    var b: seq<Byte> := [c, d, 0];
    assert Four(b)[..3] == [EncMap(Sextet(b, 0)), EncMap(Sextet(b, 1)), EncMap(Sextet(b, 2))];
  }

  lemma EncodeDone(s: seq<Byte>, i: nat, p: nat, out: seq<Byte>, before: seq<Byte>)
    requires EncodeAt(s, i, p, out, before) && i == |s|
    ensures p == |Encoded(s)| <= |out| == |before| && out == Encoded(s) + before[p..]
  {
    assert s[i..] == [];
    var e := Encoded([]);
    assert e == [];
    assert out[..p] + e == out[..p];
    assert Encoded(s) == out[..p];
    assert out == out[..p] + out[p..];
  }

  /** The one or two bytes at the end, with their pads. */
  method EncodeEnd(dst: array<Byte>, p: nat, src: array<Byte>, i: nat, ghost s: seq<Byte>, ghost before: seq<Byte>)
    returns (next: nat)
    requires dst != src && src[..] == s && i <= |s| < i + 3 && |Encoded(s)| <= dst.Length
    requires EncodeAt(s, i, p, dst[..], before)
    modifies dst
    ensures next == |Encoded(s)| <= |before| && dst[..] == Encoded(s) + before[next..]
  {
    next := p;
    hide Encoded, EncMap, EncodeAt;
    if i < src.Length {
      var c1: int := src[i];
      var c2: int := if i + 1 < src.Length then src[i + 1] else 0;
      var v1, v2 := c1 / 4 % 64, (c1 % 4 * 16 + c2 / 16) % 64;
      var third := if i + 1 < src.Length then EncMap(c2 % 16 * 4 % 64) else PAD;
      EncodedEnd(s, i, c1, c2);
      ghost var out := dst[..];
      ghost var four := [EncMap(v1), EncMap(v2), third, PAD];
      EncodeMore(s, i, p, out, before, |s| - i, four, out);
      PutFour(dst, p, EncMap(v1), EncMap(v2), third, PAD);
      EncodeMore(s, i, p, out, before, |s| - i, four, dst[..]);
      next := p + 4;
    }
    EncodeDone(s, |s|, next, dst[..], before);
  }

  /** The inner while: i moved over the spaces. */
  method SkipSpaces(src: array<Byte>, i0: nat) returns (i: nat)
    requires i0 <= src.Length
    ensures i == i0 + Spaces(src[i0..])
  {
    i := i0;
    while i < src.Length && src[i] == SPACE
      invariant i0 <= i <= src.Length
      invariant i + Spaces(src[i..]) == i0 + Spaces(src[i0..])
    {
      assert src[i..][1..] == src[i + 1..];
      i := i + 1;
    }
  }

  /** A character that is no line end: may it come after j pads. */
  method CheckCharacter(c: Byte, j: nat) returns (ok: bool, next: nat)
    ensures ok <==> Takes(c, j)
    ensures ok ==> next == if c == PAD then j + 1 else j
  {
    next := j;
    if c == PAD {
      next := next + 1;
      if next > 2 {
        return false, next;
      }
    }
    if DecMap(c) == 127 || (DecMap(c) < 64 && next != 0) {
      return false, next;
    }
    ok := true;
  }

  /** One turn of the first pass from i: over a line end or a character, or to an answer. */
  method CheckNext(src: array<Byte>, i0: nat, n0: nat, j0: nat) returns (done: bool, ok: bool, i: nat, n: nat, j: nat)
    requires i0 < src.Length
    ensures done ==> Scan(src[i0..], n0, j0) == if ok then Valid(n, j) else Invalid
    ensures !done ==> i0 < i <= src.Length && Scan(src[i0..], n0, j0) == Scan(src[i..], n, j)
  {
    hide Scan, Takes, LineEnd, Spaces;
    n, j := n0, j0;
    i := SkipSpaces(src, i0);
    ghost var u, x := src[i0..], i - i0;
    if i == src.Length {
      ScanEnd(u, n, j);
      return true, true, i, n, j;
    }
    ScanStep(u, n, j);
    assert u[x + 1..] == src[i + 1..] && u[x] == src[i];
    LineEndIs(u, x);
    done, ok := false, true;
    if (src.Length - i >= 2 && src[i] == CR && src[i + 1] == LF) || src[i] == LF {
      i := i + 1;
      return;
    }
    if i - i0 != 0 {
      return true, false, i, n, j;
    }
    ok, j := CheckCharacter(src[i], j);
    if !ok {
      return true, false, i, n, j;
    }
    i, n := i + 1, n + 1;
  }

  /** The first pass: is the text valid, and with how many characters and pads. */
  method CheckText(src: array<Byte>) returns (ok: bool, n: nat, j: nat)
    ensures Scan(src[..], 0, 0) == if ok then Valid(n, j) else Invalid
  {
    assert src[0..] == src[..];
    hide Scan;
    n, j := 0, 0;
    var i := 0;
    while i < src.Length
      invariant i <= src.Length
      invariant Scan(src[..], 0, 0) == Scan(src[i..], n, j)
    {
      var done;
      done, ok, i, n, j := CheckNext(src, i, n, j);
      if done {
        return;
      }
    }
    ScanEnd(src[i..], n, j);
    return true, n, j;
  }

  lemma ScanEnd(u: seq<Byte>, n: nat, j: nat)
    ensures u == [] || Spaces(u) == |u| ==> Scan(u, n, j) == Valid(n, j)
  {
  }

  lemma LineEndIs(u: seq<Byte>, x: nat)
    requires x < |u|
    ensures LineEnd(u, x) <==> u[x] == LF || (u[x] == CR && x + 1 < |u| && u[x + 1] == LF)
  {
  }

  lemma {:induction false} RunKeeps(st: State, s: seq<Byte>, k: nat)
    requires k <= |s|
    ensures Run(st, s[..k]).out <= Run(st, s).out
    decreases |s|
  {
    if k < |s| {
      assert s[..|s| - 1][..k] == s[..k];
      RunKeeps(st, s[..|s| - 1], k);
    } else {
      assert s[..k] == s;
    }
  }

  lemma RunNext(st: State, s: seq<Byte>, k: nat)
    requires k < |s|
    ensures Run(st, s[..k + 1]) == Step(Run(st, s[..k]), s[k])
    ensures Run(st, s[..k + 1]).out <= Run(st, s).out
  {
    assert s[..k + 1][..k] == s[..k];
    RunKeeps(st, s, k + 1);
  }

  /** One turn of the second pass: the state moves on, a full group is written to dst. */
  method DecodeStep(dst: array<Byte>, p: nat, c: Byte, j: int, n: nat, x: nat, ghost st: State, ghost before: seq<Byte>)
    returns (j': int, n': nat, x': nat, p': nat)
    requires p <= dst.Length == |before| && st == State(j, n, x, dst[..p]) && dst[p..] == before[p..]
    requires |Step(st, c).out| <= dst.Length
    modifies dst
    ensures p' <= dst.Length && Step(st, c) == State(j', n', x', dst[..p']) && dst[p'..] == before[p'..]
  {
    j', n', x', p' := j, n, x, p;
    if c == CR || c == LF || c == SPACE {
      return;
    }
    j' := if DecMap(c) == 64 then j - 1 else j;
    x' := (x * 64 + DecMap(c) % 64) % WORD;
    n' := n + 1;
    if n' == 4 {
      n' := 0;
      ghost var g := Group(j', x');
      ghost var out := st.out;
      assert Step(st, c) == State(j', 0, x', out + g);
      if j' > 0 {
        dst[p'] := x' / 0x1_0000 % 256;
        p' := p' + 1;
      }
      if j' > 1 {
        dst[p'] := x' / 0x100 % 256;
        p' := p' + 1;
      }
      if j' > 2 {
        dst[p'] := x' % 256;
        p' := p' + 1;
      }
      assert dst[..p'] == out + g;
      assert dst[p'..] == before[p..][p' - p..] == before[p'..];
    }
  }

  /** The second pass over the whole text. */
  method DecodeAll(dst: array<Byte>, src: array<Byte>) returns (p: nat)
    requires dst != src && |Run(START, src[..]).out| <= dst.Length
    modifies dst
    ensures p == |Run(START, src[..]).out|
    ensures dst[..] == Run(START, src[..]).out + old(dst[p..])
  {
    ghost var t, before := src[..], dst[..];
    assert t[..0] == [] && dst[..0] == [];
    hide Step;
    var j: int, n: nat, x: nat := 3, 0, 0;
    p := 0;
    var i := 0;
    while i < src.Length
      invariant i <= src.Length && p <= dst.Length && src[..] == t
      invariant Run(START, t[..i]) == State(j, n, x, dst[..p])
      invariant dst[p..] == before[p..]
    {
      RunNext(START, t, i);
      j, n, x, p := DecodeStep(dst, p, src[i], j, n, x, Run(START, t[..i]), before);
      i := i + 1;
    }
    assert t[..i] == t;
    assert dst[..] == dst[..p] + dst[p..];
  }

  /** base64_decode. */
  method Decode(dst: array?<Byte>, dlen: nat, src: array<Byte>) returns (err: Error, dlenOut: nat)
    requires dst != src && (dst != null ==> dlen <= dst.Length)
    modifies dst
    ensures dst != null && err != None ==> dst[..] == old(dst[..])
    ensures err == InvalidCharacter <==> Scan(src[..], 0, 0).Invalid?
    ensures err == InvalidCharacter ==> dlenOut == dlen
    ensures Scan(src[..], 0, 0).Valid? ==>
      var n, need := Scan(src[..], 0, 0).n, Needed(Scan(src[..], 0, 0).n, Scan(src[..], 0, 0).j);
      && (n == 0 ==> err == None && dlenOut == dlen && (dst != null ==> dst[..] == old(dst[..])))
      && (n > 0 ==> err == if dst == null || dlen < need then BufferTooSmall else None)
      && (err == BufferTooSmall ==> dlenOut == need)
      && (n > 0 && err == None ==>
           var out := Run(START, src[..]).out;
           && dlenOut == |out| <= dlen
           && dst[..] == out + old(dst[|out|..]))
  {
    var ok, n, j := CheckText(src);
    if !ok {
      return InvalidCharacter, dlen;
    }
    if n == 0 {
      return None, dlen;
    }
    SecondPassFits(src[..]);
    NeededNotNegative(src[..]);
    hide Scan, Run;
    var need := (n * 6 + 7) / 8 - j;
    if dst == null || dlen < need {
      return BufferTooSmall, need;
    }
    dlenOut := DecodeAll(dst, src);
    err := None;
  }

  lemma NeededNotNegative(t: seq<Byte>)
    requires Scan(t, 0, 0).Valid?
    ensures Needed(Scan(t, 0, 0).n, Scan(t, 0, 0).j) >= 0
  {
    ScanShape(t, 0, 0);
    WrittenFits(Scan(t, 0, 0).n, Scan(t, 0, 0).j);
  }
}
