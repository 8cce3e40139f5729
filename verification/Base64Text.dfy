/** What the encoder and the decoder of base64.c do to text, in the words of section 5.2 of RFC 1521. */
module Base64Text {
  import opened Arith
  import opened Base64

  // ---- The alphabet ----

  /** Table 1. */
  const ALPHABET := "ABCDEFGHIJKLMNOPQRSTUVWXYZ" + "abcdefghijklmnopqrstuvwxyz" + "0123456789+/"

  /** The character c has the value v. */
  ghost predicate HasValue(c: Byte, v: nat) {
    v < |ALPHABET| && ALPHABET[v] == c as char
  }

  lemma Letters(v: nat)
    requires v < 26
    ensures "ABCDEFGHIJKLMNOPQRSTUVWXYZ"[v] as nat == 65 + v && "abcdefghijklmnopqrstuvwxyz"[v] as nat == 97 + v
  {
    assert v in {0, 1, 2, 3, 4, 5, 6, 7, 8, 9, 10, 11, 12, 13, 14, 15, 16, 17, 18, 19, 20, 21, 22, 23, 24, 25};
  }

  lemma Figures(v: nat)
    requires v < 12
    ensures "0123456789+/"[v] as nat == if v < 10 then 48 + v else if v == 10 then 43 else 47
  {
    assert v in {0, 1, 2, 3, 4, 5, 6, 7, 8, 9, 10, 11};
  }

  lemma EncMapIs(v: nat)
    requires v < 64
    ensures HasValue(EncMap(v), v)
  {
    if v < 26 {
      Letters(v);
    } else if v < 52 {
      Letters(v - 26);
    } else {
      Figures(v - 52);
    }
  }

  lemma DecMapIs(c: Byte, v: nat)
    ensures HasValue(c, v) <==> v < 64 && DecMap(c) == v
  {
    if v < 64 {
      EncMapIs(v);
      DecEnc(v);
      if DecMap(c) == v {
        assert EncMap(v) == c;
      }
    }
  }

  // ---- Encoding ----

  const WEIGHTS: seq<nat> := [128, 64, 32, 16, 8, 4, 2, 1]

  /** Bit i of the message, the highest bit of every byte first, with zero bits behind the end. */
  function BitAt(m: seq<Byte>, i: nat): (b: nat)
    ensures b < 2
  {
    if i / 8 < |m| then m[i / 8] as int / WEIGHTS[i % 8] % 2 else 0
  }

  /** Its k-th six bits as a number. */
  function SixBits(m: seq<Byte>, k: nat): (v: nat)
    ensures v < 64
  {
    32 * BitAt(m, 6 * k) + 16 * BitAt(m, 6 * k + 1) + 8 * BitAt(m, 6 * k + 2)
    + 4 * BitAt(m, 6 * k + 3) + 2 * BitAt(m, 6 * k + 4) + BitAt(m, 6 * k + 5)
  }

  lemma BitsBehind(m: seq<Byte>, i: nat)
    requires |m| >= 3
    ensures BitAt(m, i + 24) == BitAt(m[3..], i)
  {
    assert (i + 24) / 8 == i / 8 + 3 && (i + 24) % 8 == i % 8;
  }

  lemma SixBitsBehind(m: seq<Byte>, k: nat)
    requires |m| >= 3
    ensures SixBits(m, k + 4) == SixBits(m[3..], k)
  {
    hide BitAt;
    BitsBehind(m, 6 * k);
    BitsBehind(m, 6 * k + 1);
    BitsBehind(m, 6 * k + 2);
    BitsBehind(m, 6 * k + 3);
    BitsBehind(m, 6 * k + 4);
    BitsBehind(m, 6 * k + 5);
    assert 6 * (k + 4) == 6 * k + 24;
  }

  lemma Halved(b: int, w: nat)
    requires 0 <= b && 0 < w
    ensures b / w == 2 * (b / (w * 2)) + b / w % 2
  {
    DivDiv(b, w, 2);
  }

  /** The bits of a byte, and what its beginnings and ends are in them. */
  lemma ByteBits(b: int)
    requires 0 <= b < 256
    ensures b / 64 == 2 * (b / 128 % 2) + b / 64 % 2
    ensures b / 16 == 4 * (b / 64) + 2 * (b / 32 % 2) + b / 16 % 2
    ensures b / 4 == 4 * (b / 16) + 2 * (b / 8 % 2) + b / 4 % 2
    ensures b == 4 * (b / 4) + 2 * (b / 2 % 2) + b / 1 % 2
  {
    Halved(b, 1);
    Halved(b, 2);
    Halved(b, 4);
    Halved(b, 8);
    Halved(b, 16);
    Halved(b, 32);
    Halved(b, 64);
  }

  lemma Remainders(b: int)
    requires 0 <= b
    ensures b % 4 == b - 4 * (b / 4) && b % 16 == b - 16 * (b / 16) && b % 64 == b - 64 * (b / 64)
  {
  }

  /** The first three bytes, zero bytes taking the place of missing ones. */
  function FirstThree(m: seq<Byte>): (b: seq<Byte>)
    requires m != []
    ensures |b| == 3
  {
    [m[0], if |m| > 1 then m[1] else 0, if |m| > 2 then m[2] else 0]
  }

  lemma FirstBits(m: seq<Byte>, i: nat)
    requires m != [] && i < 24
    ensures BitAt(m, i) == FirstThree(m)[i / 8] as int / WEIGHTS[i % 8] % 2
  {
    assert i % 8 in {0, 1, 2, 3, 4, 5, 6, 7};
    ZeroBit(WEIGHTS[i % 8]);
  }

  lemma ZeroBit(w: nat)
    requires w > 0
    ensures 0 / w % 2 == 0
  {
  }

  lemma FirstSix(m: seq<Byte>)
    requires m != []
    ensures SixBits(m, 0) == Sextet(FirstThree(m), 0)
  {
    FirstBits(m, 0);
    FirstBits(m, 1);
    FirstBits(m, 2);
    FirstBits(m, 3);
    FirstBits(m, 4);
    FirstBits(m, 5);
    hide BitAt, FirstThree;
    ByteBits(FirstThree(m)[0]);
    Remainders(FirstThree(m)[0]);
  }

  lemma SecondSix(m: seq<Byte>)
    requires m != []
    ensures SixBits(m, 1) == Sextet(FirstThree(m), 1)
  {
    FirstBits(m, 6);
    FirstBits(m, 7);
    FirstBits(m, 8);
    FirstBits(m, 9);
    FirstBits(m, 10);
    FirstBits(m, 11);
    hide BitAt, FirstThree;
    ByteBits(FirstThree(m)[0]);
    Remainders(FirstThree(m)[0]);
    ByteBits(FirstThree(m)[1]);
    Remainders(FirstThree(m)[1]);
  }

  lemma ThirdSix(m: seq<Byte>)
    requires m != []
    ensures SixBits(m, 2) == Sextet(FirstThree(m), 2)
  {
    FirstBits(m, 12);
    FirstBits(m, 13);
    FirstBits(m, 14);
    FirstBits(m, 15);
    FirstBits(m, 16);
    FirstBits(m, 17);
    hide BitAt, FirstThree;
    ByteBits(FirstThree(m)[1]);
    Remainders(FirstThree(m)[1]);
    ByteBits(FirstThree(m)[2]);
    Remainders(FirstThree(m)[2]);
  }

  lemma FourthSix(m: seq<Byte>)
    requires m != []
    ensures SixBits(m, 3) == Sextet(FirstThree(m), 3)
  {
    FirstBits(m, 18);
    FirstBits(m, 19);
    FirstBits(m, 20);
    FirstBits(m, 21);
    FirstBits(m, 22);
    FirstBits(m, 23);
    hide BitAt, FirstThree;
    ByteBits(FirstThree(m)[2]);
    Remainders(FirstThree(m)[2]);
  }

  lemma SixBitsFirst(m: seq<Byte>, k: nat)
    requires m != [] && k < 4
    ensures SixBits(m, k) == Sextet(FirstThree(m), k)
  {
    hide SixBits, Sextet, FirstThree;
    FirstSix(m);
    SecondSix(m);
    ThirdSix(m);
    FourthSix(m);
    assert k in {0, 1, 2, 3};
  }

  /** How many characters carry bits. */
  function Characters(n: nat): nat {
    (8 * n + 5) / 6
  }

  /**
    * The encoding, character by character: the alphabet at the k-th six bits of the message, and
    * pads up to a multiple of four.
    */
  lemma {:induction false} EncodedDefinition(m: seq<Byte>, k: nat)
    requires k < |Encoded(m)|
    ensures |Encoded(m)| == 4 * ((|m| + 2) / 3)
    ensures Encoded(m)[k] as char == if k < Characters(|m|) then ALPHABET[SixBits(m, k)] else '='
    decreases |m|
  {
    hide SixBits, EncMap, Sextet;
    if |m| > 2 && k >= 4 {
      SixBitsBehind(m, k - 4);
      EncodedDefinition(m[3..], k - 4);
    } else {
      SixBitsFirst(m, k);
      EncMapIs(SixBits(m, k));
      if |m| > 2 {
        assert FirstThree(m) == m[..3];
      }
    }
  }

  // ---- Decoding ----

  /** The text without CR, LF and spaces. */
  function Visible(t: seq<Byte>): (c: seq<Byte>) {
    if t == [] then [] else if t[0] == 13 || t[0] == 10 || t[0] == 32 then Visible(t[1..]) else [t[0]] + Visible(t[1..])
  }

  lemma {:induction false} CleanIs(t: seq<Byte>)
    ensures Clean(t) == Visible(t)
    decreases |t|
  {
    if t != [] {
      CleanIs(t[1..]);
    }
  }

  /** Characters of the alphabet with the values v, and then e pads, whose value is 0. */
  ghost predicate HasValues(c: seq<Byte>, v: seq<nat>, e: nat) {
    && |v| == |c| && e <= 2 && e <= |c|
    && forall k :: 0 <= k < |c| ==> if k < |c| - e then HasValue(c[k], v[k]) else c[k] == 61 && v[k] == 0
  }

  lemma ValuesFit(c: seq<Byte>, v: seq<nat>, e: nat)
    requires HasValues(c, v, e)
    ensures Fits(c, 0, e) && Values(c) == v
  {
    forall k | 0 <= k < |c|
      ensures DecMap(c[k]) % 64 == v[k] && (k < |c| - e ==> DecMap(c[k]) < 64) && (k >= |c| - e ==> c[k] == PAD)
    {
      DecMapIs(c[k], v[k]);
    }
  }

  lemma FitsValues(c: seq<Byte>, e: nat)
    requires Fits(c, 0, e)
    ensures HasValues(c, Values(c), e)
  {
    forall k | 0 <= k < |c|
      ensures if k < |c| - e then HasValue(c[k], Values(c)[k]) else c[k] == 61 && Values(c)[k] == 0
    {
      DecMapIs(c[k], Values(c)[k]);
    }
  }

  lemma {:induction false} OutGrows(st: State, s: seq<Byte>)
    ensures st.out <= Run(st, s).out
  {
    hide Group;
    if s != [] {
      OutGrows(st, s[..|s| - 1]);
    }
  }

  /** The four values from 4 * g on as one number. */
  function GroupNumber(v: seq<nat>, g: nat): nat
    requires 4 * g + 4 <= |v|
  {
    v[4 * g] * 0x4_0000 + v[4 * g + 1] * 0x1000 + v[4 * g + 2] * 0x40 + v[4 * g + 3]
  }

  /** The output stops with the group that holds a pad: every pad in a whole group costs one byte. */
  function Bytes(n: nat, e: nat): int {
    3 * (n / 4) - if e > n % 4 then e - n % 4 else 0
  }

  lemma DecodedLength(c: seq<Byte>, v: seq<nat>, e: nat)
    requires HasValues(c, v, e)
    ensures |Run(START, c).out| == Bytes(|c|, e)
  {
    ValuesFit(c, v, e);
    RunLength(c, e, |c|);
    assert c[..|c|] == c;
  }

  /** How many of the pads stand in the g-th group or before. */
  function PadsBy(n: nat, e: nat, g: nat): (k: nat)
  {
    if 4 * g + 4 + e <= n then 0 else 4 * g + 4 + e - n
  }

  lemma GroupRun(c: seq<Byte>, v: seq<nat>, e: nat, g: nat)
    requires HasValues(c, v, e) && 4 * g + 4 <= |c|
    ensures |Run(START, c[..4 * g]).out| == 3 * g
    ensures Run(START, c[..4 * g]).out + Group(3 - PadsBy(|c|, e, g), GroupNumber(v, g)) <= Run(START, c).out
  {
    var s := c[4 * g..4 * g + 4];
    ValuesFit(c, v, e);
    WholeGroups(c, e, g);
    GroupCharacters(c, e, g, s);
    GroupValues(c, v, g, s);
    hide Run, Group, DecMap, HasValues, Fits, Values, Bits, GroupNumber, Blank;
    RunGroup(Run(START, c[..4 * g]), s, PadsBy(|c|, e, g));
    RunThrough(c, 4 * g, s);
  }

  lemma WholeGroups(c: seq<Byte>, e: nat, g: nat)
    requires Fits(c, 0, e) && 4 * g + 4 <= |c|
    ensures var r := Run(START, c[..4 * g]); r.n == 0 && r.j == 3 && |r.out| == 3 * g
  {
    hide Run, DecMap, Shape;
    RunLength(c, e, 4 * g);
  }

  lemma GroupValues(c: seq<Byte>, v: seq<nat>, g: nat, s: seq<Byte>)
    requires |c| == |v| && Values(c) == v && 4 * g + 4 <= |c| && s == c[4 * g..4 * g + 4]
    ensures Bits(Values(s)) == GroupNumber(v, g)
  {
    hide DecMap;
    assert forall k :: 0 <= k < 4 ==> Values(s)[k] == v[4 * g + k];
  }

  lemma RunThrough(c: seq<Byte>, i: nat, s: seq<Byte>)
    requires i + |s| <= |c| && s == c[i..i + |s|]
    ensures Run(Run(START, c[..i]), s).out <= Run(START, c).out
  {
    hide Run;
    RunParts(c[..i], s, c[i + |s|..]);
    InThree(c, i, s);
  }

  lemma InThree(c: seq<Byte>, i: nat, s: seq<Byte>)
    requires i + |s| <= |c| && s == c[i..i + |s|]
    ensures (c[..i] + s) + c[i + |s|..] == c
  {
  }

  lemma RunParts(a: seq<Byte>, s: seq<Byte>, b: seq<Byte>)
    ensures Run(Run(START, a), s).out <= Run(START, (a + s) + b).out
  {
    hide Run;
    RunSplit(START, a, s);
    RunSplit(START, a + s, b);
    OutGrows(Run(START, a + s), b);
  }

  lemma GroupCharacters(c: seq<Byte>, e: nat, g: nat, s: seq<Byte>)
    requires Fits(c, 0, e) && 4 * g + 4 <= |c| && s == c[4 * g..4 * g + 4]
    ensures forall k :: 0 <= k < 4 ==> !Blank(s[k]) && (DecMap(s[k]) == 64 <==> 4 * g + k >= |c| - e)
    ensures DecMap(s[0]) != 64 && DecMap(s[1]) != 64
    ensures PadsBy(|c|, e, g) == (if DecMap(s[2]) == 64 then 1 else 0) + (if DecMap(s[3]) == 64 then 1 else 0)
  {
  }

  /**
    * Byte 3 * g + i of what is decoded is byte i of the number that the g-th four characters stand
    * for, a pad counting as 0, and Bytes says how many bytes there are.
    */
  lemma DecodedDefinition(t: seq<Byte>, v: seq<nat>, e: nat, g: nat, i: nat)
    requires HasValues(Visible(t), v, e) && i < 3 && 3 * g + i < Bytes(|v|, e)
    ensures |Run(START, t).out| == Bytes(|v|, e) && 4 * g + 4 <= |v|
    ensures
      var x := GroupNumber(v, g);
      Run(START, t).out[3 * g + i] == if i == 0 then x / 0x1_0000 % 256 else if i == 1 then x / 0x100 % 256 else x % 256
  {
    hide *;
    var c := Visible(t);
    CleanIs(t);
    RunClean(START, t);
    DecodedLength(c, v, e);
    SameLength(c, v, e);
    BytesInGroup(|v|, e, g, i);
    GroupRun(c, v, e, g);
    GroupByte(3 - PadsBy(|v|, e, g), GroupNumber(v, g), i);
    Behind(Run(START, c[..4 * g]).out, Group(3 - PadsBy(|v|, e, g), GroupNumber(v, g)), Run(START, c).out, i);
  }

  lemma GroupByte(j: int, x: nat, i: nat)
    requires i < 3 && i < j
    ensures i < |Group(j, x)|
    ensures Group(j, x)[i] == if i == 0 then x / 0x1_0000 % 256 else if i == 1 then x / 0x100 % 256 else x % 256
  {
  }

  lemma SameLength(c: seq<Byte>, v: seq<nat>, e: nat)
    requires HasValues(c, v, e)
    ensures |v| == |c| && e <= 2 && e <= |c|
  {
  }

  lemma BytesInGroup(n: nat, e: nat, g: nat, i: nat)
    requires e <= 2 && e <= n && i < 3 && 3 * g + i < Bytes(n, e)
    ensures 4 * g + 4 <= n && i + PadsBy(n, e, g) < 3
  {
  }

  lemma Behind(a: seq<Byte>, b: seq<Byte>, out: seq<Byte>, i: nat)
    requires a + b <= out && i < |b|
    ensures |a| + i < |out| && out[|a| + i] == b[i]
  {
    assert (a + b)[|a| + i] == b[i];
  }

  /** For whole groups the size that the decoder asks for is the size of what it writes. */
  lemma NeededExact(n: nat, e: nat)
    requires n % 4 == 0 && e <= 2 && e <= n
    ensures Needed(n, e) == Bytes(n, e)
  {
  }

  // ---- What is accepted ----

  ghost predicate InAlphabet(c: Byte) {
    exists v :: HasValue(c, v)
  }

  lemma InAlphabetIs(c: Byte)
    ensures InAlphabet(c) <==> DecMap(c) < 64
    ensures c == 13 || c == 10 || c == 32 || c == 61 ==> !InAlphabet(c)
  {
    DecMapIs(c, DecMap(c));
    if InAlphabet(c) {
      var v :| HasValue(c, v);
      DecMapIs(c, v);
    }
  }

  /** The alphabet, CR, LF, space and the pad. */
  ghost predicate KnownOnly(t: seq<Byte>) {
    forall i :: 0 <= i < |t| ==> InAlphabet(t[i]) || t[i] == 13 || t[i] == 10 || t[i] == 32 || t[i] == 61
  }

  /** CR only before LF. */
  ghost predicate ReturnsPaired(t: seq<Byte>) {
    forall i :: 0 <= i < |t| && t[i] == 13 ==> i + 1 < |t| && t[i + 1] == 10
  }

  /** Spaces only at the end of a line or of the text. */
  ghost predicate SpacesTrail(t: seq<Byte>) {
    forall i :: 0 <= i < |t| - 1 && t[i] == 32 ==> t[i + 1] == 32 || t[i + 1] == 13 || t[i + 1] == 10
  }

  ghost predicate NoMore(t: seq<Byte>) {
    forall i :: 0 <= i < |t| ==> !InAlphabet(t[i])
  }

  /** Nothing of the alphabet behind a pad. */
  ghost predicate PadsLast(t: seq<Byte>) {
    forall i, k :: 0 <= i < k < |t| && t[i] == 61 ==> !InAlphabet(t[k])
  }

  function PadCount(t: seq<Byte>): nat {
    if t == [] then 0 else (if t[0] == 61 then 1 else 0) + PadCount(t[1..])
  }

  /** The text that may stand behind j pads. */
  ghost predicate ReadableAfter(t: seq<Byte>, j: nat) {
    KnownOnly(t) && ReturnsPaired(t) && SpacesTrail(t) && PadsLast(t) && j + PadCount(t) <= 2 && (j > 0 ==> NoMore(t))
  }

  /** What one character asks of the text before and behind it. */
  ghost predicate HeadReadable(t: seq<Byte>, j: nat)
    requires t != []
  {
    if t[0] == 13 then |t| > 1 && t[1] == 10
    else if t[0] == 10 then true
    else if t[0] == 32 then |t| > 1 ==> t[1] == 32 || t[1] == 13 || t[1] == 10
    else if t[0] == 61 then j < 2
    else InAlphabet(t[0]) && j == 0
  }

  lemma ReadableCons(t: seq<Byte>, j: nat)
    requires t != []
    ensures ReadableAfter(t, j) <==> HeadReadable(t, j) && ReadableAfter(t[1..], if t[0] == 61 then j + 1 else j)
  {
    InAlphabetIs(t[0]);
    hide InAlphabet, DecMap;
    ConsPairs(t);
    ConsPads(t);
  }

  lemma ConsPairs(t: seq<Byte>)
    requires t != []
    ensures KnownOnly(t) <==> (InAlphabet(t[0]) || t[0] == 13 || t[0] == 10 || t[0] == 32 || t[0] == 61) && KnownOnly(t[1..])
    ensures ReturnsPaired(t) <==> (t[0] == 13 ==> |t| > 1 && t[1] == 10) && ReturnsPaired(t[1..])
    ensures SpacesTrail(t) <==>
      (t[0] == 32 && |t| > 1 ==> t[1] == 32 || t[1] == 13 || t[1] == 10) && SpacesTrail(t[1..])
  {
    hide InAlphabet;
    var u := t[1..];
    assert forall i :: 0 <= i < |u| ==> u[i] == t[i + 1];
    assert forall i :: 0 < i < |t| ==> t[i] == u[i - 1];
  }

  lemma ConsPads(t: seq<Byte>)
    requires t != []
    ensures PadsLast(t) <==> (t[0] == 61 ==> NoMore(t[1..])) && PadsLast(t[1..])
    ensures NoMore(t) <==> !InAlphabet(t[0]) && NoMore(t[1..])
    ensures PadCount(t) == (if t[0] == 61 then 1 else 0) + PadCount(t[1..])
  {
    hide InAlphabet;
    var u := t[1..];
    assert forall i :: 0 <= i < |u| ==> u[i] == t[i + 1];
    assert forall i :: 0 < i < |t| ==> t[i] == u[i - 1];
  }

  /** A run of spaces ends the text or stands before a line end. */
  lemma {:induction false} ReadableSpaces(t: seq<Byte>, j: nat)
    ensures
      var x := Spaces(t);
      ReadableAfter(t, j) <==>
        if x == |t| then j <= 2 else (x > 0 ==> t[x] == 13 || t[x] == 10) && ReadableAfter(t[x..], j)
    decreases |t|
  {
    hide *;
    SpacesNext(t);
    if t == [] {
      ReadableNothing(j);
    } else if t[0] != 32 {
      assert t[0..] == t;
    } else {
      var x := Spaces(t);
      ReadableCons(t, j);
      SpaceReadable(t, j);
      ReadableSpaces(t[1..], j);
      DropOne(t, x);
    }
  }

  lemma SpacesNext(t: seq<Byte>)
    ensures t == [] || t[0] != 32 ==> Spaces(t) == 0
    ensures t != [] && t[0] == 32 ==> Spaces(t) == 1 + Spaces(t[1..])
    ensures t != [] && t[0] == 32 && Spaces(t) > 1 ==> |t| > 1 && t[1] == 32
    ensures Spaces(t) < |t| ==> t[Spaces(t)] != 32
  {
  }

  lemma DropOne(t: seq<Byte>, x: nat)
    requires 1 <= x <= |t|
    ensures t[1..][x - 1..] == t[x..] && (x < |t| ==> t[1..][x - 1] == t[x])
  {
  }

  lemma ReadableNothing(j: nat)
    ensures ReadableAfter([], j) <==> j <= 2
  {
  }

  lemma SpaceReadable(t: seq<Byte>, j: nat)
    requires t != [] && t[0] == 32
    ensures HeadReadable(t, j) <==> (|t| > 1 ==> t[1] == 32 || t[1] == 13 || t[1] == 10)
  {
  }

  lemma {:induction false} ScanReadable(t: seq<Byte>, n: nat, j: nat)
    requires j <= 2
    ensures Scan(t, n, j).Valid? <==> ReadableAfter(t, j)
    decreases |t|
  {
    var x := Spaces(t);
    ReadableSpaces(t, j);
    if x == |t| {
      AtTheEnd(t, n, j);
    } else {
      ReadableCons(t[x..], j);
      assert t[x..][1..] == t[x + 1..];
      InAlphabetIs(t[x]);
      if LineEnd(t, x) {
        hide Scan, ReadableAfter, InAlphabet, DecMap, Spaces;
        AtLineEnd(t, x, n, j);
        ScanReadable(t[x + 1..], n, j);
      } else {
        hide Scan, ReadableAfter, InAlphabet, DecMap, Spaces, WellBroken, Clean;
        AtCharacter(t, x, n, j);
        if x == 0 && Takes(t[0], j) {
          ScanReadable(t[1..], n + 1, if t[0] == PAD then j + 1 else j);
        }
      }
    }
  }

  /** base64_decode accepts a text exactly when it is made like this. */
  lemma AcceptedText(t: seq<Byte>)
    ensures Scan(t, 0, 0).Valid? <==> KnownOnly(t) && ReturnsPaired(t) && SpacesTrail(t) && PadsLast(t) && PadCount(t) <= 2
  {
    ScanReadable(t, 0, 0);
  }

  /** And then its visible characters have values, and were counted with their pads. */
  lemma AcceptedValues(t: seq<Byte>) returns (v: seq<nat>, e: nat)
    requires Scan(t, 0, 0).Valid?
    ensures HasValues(Visible(t), v, e) && Scan(t, 0, 0) == Valid(|v|, e)
  {
    ScanShape(t, 0, 0);
    CleanIs(t);
    v, e := Values(Visible(t)), Scan(t, 0, 0).j;
    FitsValues(Visible(t), e);
  }
}
