/** Waiting for an answer of the ESP8266 modem (esp8266.cpp: esp8266ReadUntil, esp8266ReadSwitch). */
module Esp8266 {
  // ---- Occurrences ----

  predicate Ends(p: string, t: string) {
    |p| <= |t| && t[|t| - |p|..] == p
  }

  /** p has come by somewhere in t. */
  predicate Occurs(p: string, t: string) {
    exists n :: 0 <= n <= |t| && Ends(p, t[..n])
  }

  lemma EndsPrefix(p: string, k: nat, t: string, c: char)
    requires k < |p| && Ends(p[..k], t) && c == p[k]
    ensures Ends(p[..k + 1], t + [c])
  {
    assert p[..k + 1] == p[..k] + [c];
  }

  /** The other way round: a match that ends with c was a match one shorter before. */
  lemma EndsShorter(p: string, k: nat, t: string, c: char)
    requires k < |p| && Ends(p[..k + 1], t + [c])
    ensures Ends(p[..k], t) && c == p[k]
  {
    var u := t + [c];
    assert p[..k + 1] == u[|u| - (k + 1)..];
    assert p[..k + 1][k] == u[|u| - 1] == c;
    assert p[..k] == p[..k + 1][..k] == t[|t| - k..];
  }

  /** Of two endings of t, the shorter ends the longer. */
  lemma EndsNested(a: string, b: string, t: string)
    requires Ends(a, t) && Ends(b, t) && |a| <= |b|
    ensures Ends(a, b)
  {
    assert b[|b| - |a|..] == t[|t| - |a|..];
  }

  // ---- The restarting matcher ----

  /** The character of a C string at i: NUL at its end. */
  function At(p: string, i: nat): char {
    if i < |p| then p[i] else 0 as char
  }

  /** if (c != p[i]) i = 0; if (c == p[i]) ++i; */
  function Step(p: string, i: nat, c: char): nat {
    var i0 := if c != At(p, i) then 0 else i;
    if c == At(p, i0) then i0 + 1 else i0
  }

  /** The index after all of t, unless the whole of p was matched before. */
  function Index(p: string, t: string): nat {
    if t == "" then 0 else
      var i := Index(p, t[..|t| - 1]);
      if i >= |p| then i else Step(p, i, t[|t| - 1])
  }

  /** What has been matched has just been read: holds for every string. */
  lemma {:induction false} IndexSound(p: string, t: string)
    requires |p| > 0
    ensures Index(p, t) <= |p|
    ensures Index(p, t) < |p| ==> Ends(p[..Index(p, t)], t)
    ensures Index(p, t) == |p| ==> Occurs(p, t)
    decreases |t|
  {
    if t == "" {
    } else {
      var u, c := t[..|t| - 1], t[|t| - 1];
      assert t == u + [c];
      IndexSound(p, u);
      var i := Index(p, u);
      if i >= |p| {
        OccursOn(p, u, c);
      } else {
        StepSound(p, i, u, c);
        if Index(p, t) == |p| {
          assert p[..|p|] == p && t[..|t|] == t;
          assert Ends(p, t[..|t|]);
        }
      }
    }
  }

  lemma StepSound(p: string, i: nat, u: string, c: char)
    requires i < |p| && Ends(p[..i], u)
    ensures Step(p, i, c) <= |p| && Ends(p[..Step(p, i, c)], u + [c])
  {
    if c == p[i] {
      EndsPrefix(p, i, u, c);
    } else if c == p[0] {
      assert p[..0] == u[|u|..];
      EndsPrefix(p, 0, u, c);
    } else {
      assert p[..0] == (u + [c])[|u| + 1..];
    }
  }

  lemma OccursOn(p: string, u: string, c: char)
    requires Occurs(p, u)
    ensures Occurs(p, u + [c])
  {
    var n :| 0 <= n <= |u| && Ends(p, u[..n]);
    assert (u + [c])[..n] == u[..n];
  }

  /**
    * Wherever a beginning of p ends a longer beginning of p, the same character follows
    * both: then restarting at zero after a mismatch loses nothing.
    */
  predicate NoFallback(p: string) {
    forall b, k :: 0 < b < k < |p| && Ends(p[..b], p[..k]) ==> p[b] == p[k]
  }

  lemma BorderFirst(p: string, b: nat, k: nat)
    requires 0 < b < k < |p| && Ends(p[..b], p[..k])
    ensures p[k - b] == p[0]
  {
    assert p[..k][k - b..][0] == p[..b][0];
  }

  /** A first character that does not come again is enough. */
  lemma FirstUnique(p: string)
    requires forall k :: 0 < k < |p| ==> p[k] != p[0]
    ensures NoFallback(p)
  {
    forall b, k | 0 < b < k < |p| ensures !Ends(p[..b], p[..k]) {
      if Ends(p[..b], p[..k]) {
        BorderFirst(p, b, k);
      }
    }
  }

  /** The index is the longest beginning of p that has just been read. */
  ghost predicate Longest(p: string, t: string, i: nat) {
    i <= |p| && Ends(p[..i], t) && forall k :: i < k <= |p| ==> !Ends(p[..k], t)
  }

  lemma StepLongest(p: string, i: nat, u: string, c: char)
    requires NoFallback(p) && i < |p| && Longest(p, u, i)
    ensures Longest(p, u + [c], Step(p, i, c))
  {
    var t, j := u + [c], Step(p, i, c);
    StepSound(p, i, u, c);
    forall k | j < k <= |p| ensures !Ends(p[..k], t) {
      if Ends(p[..k], t) {
        NotLonger(p, i, u, c, k);
      }
    }
  }

  lemma NotLonger(p: string, i: nat, u: string, c: char, k: nat)
    requires NoFallback(p) && i < |p| && Longest(p, u, i)
    requires Step(p, i, c) < k <= |p|
    ensures !Ends(p[..k], u + [c])
  {
    if Ends(p[..k], u + [c]) {
      EndsShorter(p, k - 1, u, c);
      if k - 1 < i {
        EndsNested(p[..k - 1], p[..i], u);
      }
    }
  }

  lemma {:induction false} IndexLongest(p: string, t: string)
    requires |p| > 0 && NoFallback(p) && Index(p, t) < |p|
    ensures Longest(p, t, Index(p, t))
    decreases |t|
  {
    if t == "" {
    } else {
      var u, c := t[..|t| - 1], t[|t| - 1];
      assert t == u + [c];
      IndexLongest(p, u);
      StepLongest(p, Index(p, u), u, c);
    }
  }

  lemma {:induction false} IndexStays(p: string, t: string, n: nat)
    requires n <= |t| && Index(p, t[..n]) >= |p|
    ensures Index(p, t) >= |p|
    decreases |t|
  {
    if n < |t| {
      assert t[..|t| - 1][..n] == t[..n];
      IndexStays(p, t[..|t| - 1], n);
    } else {
      assert t[..n] == t;
    }
  }

  lemma FoundAt(p: string, t: string)
    requires |p| > 0 && NoFallback(p) && Ends(p, t)
    ensures Index(p, t) >= |p|
  {
    assert p[..|p|] == p;
    if Index(p, t) < |p| {
      IndexLongest(p, t);
    }
  }

  /** Without fallbacks the matcher finds every string in which p occurs, and no other. */
  lemma Complete(p: string, t: string)
    requires |p| > 0 && NoFallback(p)
    ensures Index(p, t) == |p| <==> Occurs(p, t)
  {
    IndexSound(p, t);
    if Occurs(p, t) {
      var n :| 0 <= n <= |t| && Ends(p, t[..n]);
      FoundAt(p, t[..n]);
      IndexStays(p, t, n);
    }
  }

  // ---- When restarting at zero does lose an occurrence ----

  lemma {:induction false} IndexOfBeginning(p: string, k: nat)
    requires k <= |p|
    ensures Index(p, p[..k]) == k
  {
    if k > 0 {
      IndexOfBeginning(p, k - 1);
      assert p[..k][..k - 1] == p[..k - 1];
    }
  }

  /** The index never grows by more than one for a character. */
  lemma {:induction false} IndexGrowth(p: string, t: string, n: nat)
    requires n <= |t| && Index(p, t[..n]) + (|t| - n) < |p|
    ensures Index(p, t) <= Index(p, t[..n]) + (|t| - n)
    decreases |t|
  {
    if n < |t| {
      assert t[..|t| - 1][..n] == t[..n];
      IndexGrowth(p, t[..|t| - 1], n);
    } else {
      assert t[..n] == t;
    }
  }

  /** p[..k] and then p from b on: p stands at its end. */
  lemma MissedEnds(p: string, b: nat, k: nat)
    requires 0 < b < k < |p| && Ends(p[..b], p[..k])
    ensures Ends(p, p[..k] + p[b..]) && Occurs(p, p[..k] + p[b..])
  {
    var t := p[..k] + p[b..];
    assert t[|t| - |p|..] == p[..k][k - b..] + p[b..] == p[..b] + p[b..] == p;
    assert t[..|t|] == t;
    assert Ends(p, t[..|t|]);
  }

  /** The matcher gives up p[..k] at p[b] and is then too short ever to reach the end. */
  lemma MissedByIndex(p: string, b: nat, k: nat)
    requires 0 < b < k < |p| && p[b] != p[k]
    ensures Index(p, p[..k] + p[b..]) < |p|
  {
    var t := p[..k] + p[b..];
    IndexOfBeginning(p, k);
    assert t[..k + 1][..k] == p[..k] && t[..k + 1][k] == p[b];
    assert Index(p, t[..k + 1]) <= 1;
    IndexGrowth(p, t, k + 1);
  }

  lemma MissedSomewhere(p: string) returns (t: string)
    requires !NoFallback(p)
    ensures Occurs(p, t) && Index(p, t) < |p|
  {
    var b, k :| 0 < b < k < |p| && Ends(p[..b], p[..k]) && p[b] != p[k];
    hide Ends, Index, Occurs;
    MissedEnds(p, b, k);
    MissedByIndex(p, b, k);
    t := p[..k] + p[b..];
  }

  /** The matcher agrees with occurrence on every stream exactly when p has no fallbacks. */
  lemma RestartExact(p: string)
    requires |p| > 0
    ensures (forall t :: Index(p, t) == |p| <==> Occurs(p, t)) <==> NoFallback(p)
  {
    hide Index, Occurs, NoFallback;
    if NoFallback(p) {
      forall t ensures Index(p, t) == |p| <==> Occurs(p, t) {
        Complete(p, t);
      }
    } else {
      var t := MissedSomewhere(p);
      assert !(Index(p, t) == |p| <==> Occurs(p, t));
    }
  }

  // ---- The input ----

  /** The serial port: what will arrive before the timeout. */
  class Usart {
    var rest: string

    /** sdGetTimeout: the next character, if one comes. */
    method GetTimeout() returns (got: bool, c: char)
      modifies this
      ensures got <==> old(rest) != ""
      ensures got ==> old(rest) == [c] + rest
      ensures !got ==> rest == ""
    {
      got, c := rest != "", ' ';
      if got {
        c := rest[0];
        rest := rest[1..];
      }
    }
  }

  lemma IndexNext(p: string, t: string, c: char)
    requires |p| > 0 && Index(p, t) < |p|
    ensures Index(p, t + [c]) == Step(p, Index(p, t), c) <= |p|
    ensures Index(p, t + [c]) == |p| ==> Ends(p, t + [c])
  {
    IndexSnoc(p, t, c);
    IndexSound(p, t);
    hide Index, Step, Ends;
    StepSound(p, Index(p, t), t, c);
    assert p[..|p|] == p;
  }

  lemma IndexSnoc(p: string, t: string, c: char)
    requires Index(p, t) < |p|
    ensures Index(p, t + [c]) == Step(p, Index(p, t), c)
  {
    hide Step;
    assert (t + [c])[..|t|] == t;
  }

  /**
    * esp8266ReadUntil: t is what was read. It ends with the first match, or there was
    * none and everything was read.
    */
  method ReadUntil(usart: Usart, resp: string) returns (found: bool, ghost t: string)
    requires |resp| > 0
    modifies usart
    ensures old(usart.rest) == t + usart.rest
    ensures found ==> Ends(resp, t) && t != "" && Index(resp, t[..|t| - 1]) < |resp| == Index(resp, t)
    ensures !found ==> usart.rest == "" && Index(resp, t) < |resp|
  {
    hide Index, Ends;
    ghost var all := usart.rest;
    t := "";
    IndexEmpty(resp);
    var index := 0;
    var got, c := usart.GetTimeout();
    while got
      invariant index == Index(resp, t) < |resp|
      invariant all == t + (if got then [c] + usart.rest else usart.rest)
      invariant !got ==> usart.rest == ""
      decreases |usart.rest| + if got then 1 else 0
    {
      IndexNext(resp, t, c);
      ghost var u := t;
      t := t + [c];
      assert t[..|t| - 1] == u && all == t + usart.rest;
      if c != At(resp, index) {
        index := 0;
      }
      if c == At(resp, index) {
        index := index + 1;
        if index >= |resp| {
          return true, t;
        }
      }
      got, c := usart.GetTimeout();
    }
    found := false;
  }

  lemma IndexEmpty(p: string)
    ensures Index(p, "") == 0
  {
  }

  /** With no fallbacks in it, the string is found where it first ends, or is not in the input at all. */
  lemma ReadUntilExact(resp: string, t: string)
    requires |resp| > 0 && NoFallback(resp)
    ensures Index(resp, t) < |resp| ==> !Occurs(resp, t)
    ensures t != "" && Index(resp, t[..|t| - 1]) < |resp| ==>
      forall n :: 0 <= n < |t| ==> !Ends(resp, t[..n])
  {
    Complete(resp, t);
    if t != "" && Index(resp, t[..|t| - 1]) < |resp| {
      Complete(resp, t[..|t| - 1]);
      forall n | 0 <= n < |t| ensures !Ends(resp, t[..n]) {
        assert t[..|t| - 1][..n] == t[..n];
      }
    }
  }

  // ---- The table of answers ----

  const RESPONSES: seq<string> := [
    "LINK IS BUILDED\r\n", "no change\r\n", "SEND OK\r\n", "SEND FAIL\r\n", "ERROR\r\n", "Unlink\r\n",
    "Linked\r\n", ",CLOSED\r\n", ",CONNECT\r\n", "ready\r\n", "+IPD,", "OK\r\n", "\r\n"]

  const VALUES: seq<bv16> := [
    0x0080, 0x0800, 0x0010, 0x1000, 0x0040, 0x0020, 0x0008, 0x0200, 0x0100, 0x0004, 0x0400, 0x0002, 0x0001]

  const ALREADY_CONNECTED := 0
  const NOCHANGE := 1

  predicate Selected(retvals: bv16, x: nat)
    requires x < |VALUES|
  {
    retvals & VALUES[x] != 0
  }

  lemma TableSize()
    ensures |RESPONSES| == |VALUES| == 13
  {
  }

  lemma NotEmpty(x: nat)
    requires x < |RESPONSES|
    ensures |RESPONSES[x]| > 0 && 0 as char !in RESPONSES[x]
  {
  }

  /** Of the answers, all but the first two can be waited for without missing any. */
  lemma TableFallbacks(x: nat)
    requires x < |RESPONSES|
    ensures NoFallback(RESPONSES[x]) <==> x != ALREADY_CONNECTED && x != NOCHANGE
  {
    if x == ALREADY_CONNECTED {
      var p := RESPONSES[0];
      assert p[..1] == "L" && p[..12] == "LINK IS BUIL";
      assert Ends(p[..1], p[..12]) && p[1] == 'I' && p[12] == 'D';
    } else if x == NOCHANGE {
      var p := RESPONSES[1];
      assert p[..1] == "n" && p[..7] == "no chan";
      assert Ends(p[..1], p[..7]) && p[1] == 'o' && p[7] == 'g';
    } else {
      FirstUnique(RESPONSES[x]);
    }
  }

  // ---- The line buffer ----

  /** The line with its last character, before a line end clears it. */
  function Line(t: string): string
    requires t != ""
    decreases |t|, 0
  {
    Kept(t[..|t| - 1]) + [t[|t| - 1]]
  }

  /** What the buffer holds after t: the characters since the last CR LF. */
  function Kept(t: string): string
    decreases |t|, 1
  {
    if t == "" || Ends("\r\n", Line(t)) then "" else Line(t)
  }

  /** Where the matchers stand after t: no selected answer has been seen. */
  ghost predicate Waiting(retvals: bv16, index: seq<nat>, t: string) {
    && |index| == |RESPONSES|
    && forall x :: 0 <= x < |RESPONSES| ==> At1(retvals, index[x], t, x)
  }

  ghost predicate At1(retvals: bv16, i: nat, t: string, x: nat)
    requires x < |RESPONSES|
  {
    && i <= |RESPONSES[x]|
    && (Selected(retvals, x) ==> i == Index(RESPONSES[x], t) < |RESPONSES[x]|)
  }

  /** The answer x was seen at the end of t, and no selected one before it in the table. */
  ghost predicate Seen(retvals: bv16, t: string, x: nat)
    requires x < |RESPONSES|
  {
    && t != "" && Selected(retvals, x)
    && Ends(RESPONSES[x], t) && Index(RESPONSES[x], t) == |RESPONSES[x]|
    && (forall y :: 0 <= y < x && Selected(retvals, y) ==> Index(RESPONSES[y], t) < |RESPONSES[y]|)
    && (forall y :: 0 <= y < |RESPONSES| && Selected(retvals, y) ==> Index(RESPONSES[y], t[..|t| - 1]) < |RESPONSES[y]|)
  }

  /** Entry x takes the character c; done says that the whole answer is there. */
  method Advance(index: array<nat>, x: nat, c: char, ghost retvals: bv16, ghost t: string) returns (done: bool)
    requires index.Length == |RESPONSES| && x < |RESPONSES| && c != 0 as char
    requires At1(retvals, index[x], t, x)
    modifies index
    ensures forall y :: 0 <= y < index.Length && y != x ==> index[y] == old(index[y])
    ensures index[x] <= |RESPONSES[x]| && (done <==> index[x] == |RESPONSES[x]|)
    ensures Selected(retvals, x) ==> index[x] == Index(RESPONSES[x], t + [c])
    ensures Selected(retvals, x) && done ==> Ends(RESPONSES[x], t + [c])
  {
    var p := RESPONSES[x];
    NotEmpty(x);
    if Selected(retvals, x) {
      IndexNext(p, t, c);
    }
    hide Index, Ends, Selected;
    if c != At(p, index[x]) {
      index[x] := 0;
    }
    done := false;
    if c == At(p, index[x]) {
      index[x] := index[x] + 1;
      done := index[x] >= |p|;
    }
  }

  /** The entries before x have taken c, the others have not; no selected answer is complete. */
  ghost predicate Partway(retvals: bv16, index: seq<nat>, t: string, c: char, x: nat) {
    && |index| == |RESPONSES| && x <= |RESPONSES|
    && (forall y :: 0 <= y < x ==> At1(retvals, index[y], t + [c], y))
    && (forall y :: x <= y < |RESPONSES| ==> At1(retvals, index[y], t, y))
    && (forall y :: 0 <= y < |RESPONSES| && Selected(retvals, y) ==> Index(RESPONSES[y], t) < |RESPONSES[y]|)
  }

  lemma PartwayStart(retvals: bv16, index: seq<nat>, t: string, c: char)
    requires Waiting(retvals, index, t)
    ensures Partway(retvals, index, t, c, 0)
  {
    StillWaiting(retvals, index, t);
  }

  lemma PartwayEnd(retvals: bv16, index: seq<nat>, t: string, c: char)
    requires Partway(retvals, index, t, c, |RESPONSES|)
    ensures Waiting(retvals, index, t + [c])
  {
    hide At1;
  }

  lemma PartwaySeen(retvals: bv16, index: seq<nat>, t: string, c: char, x: nat)
    requires Partway(retvals, index, t, c, x) && x < |RESPONSES| && Selected(retvals, x)
    requires Ends(RESPONSES[x], t + [c]) && Index(RESPONSES[x], t + [c]) == |RESPONSES[x]|
    ensures Seen(retvals, t + [c], x)
  {
    hide Index, Ends, Selected;
    var u := t + [c];
    assert u[..|u| - 1] == t;
    forall y | 0 <= y < x && Selected(retvals, y) ensures Index(RESPONSES[y], u) < |RESPONSES[y]| {
      assert At1(retvals, index[y], u, y);
    }
  }

  lemma PartwayNext(retvals: bv16, index: seq<nat>, t: string, c: char, x: nat, now: seq<nat>)
    requires Partway(retvals, index, t, c, x) && x < |RESPONSES| == |now|
    requires forall y :: 0 <= y < |now| && y != x ==> now[y] == index[y]
    requires At1(retvals, now[x], t + [c], x)
    ensures Partway(retvals, now, t, c, x + 1)
  {
    hide At1, Index, Selected;
  }

  /** The loop over the table for one character. */
  method TryAll(index: array<nat>, c: char, retvals: bv16, ghost t: string) returns (hit: bool, x: nat)
    requires index.Length == |RESPONSES| && c != 0 as char
    requires Waiting(retvals, index[..], t)
    modifies index
    ensures hit ==> x < |RESPONSES| && Seen(retvals, t + [c], x)
    ensures !hit ==> Waiting(retvals, index[..], t + [c])
  {
    PartwayStart(retvals, index[..], t, c);
    hide Partway, Waiting;
    x := 0;
    while x < |RESPONSES|
      invariant 0 <= x <= |RESPONSES| && Partway(retvals, index[..], t, c, x)
    {
      hit := TryOne(index, x, c, retvals, t);
      if hit {
        return true, x;
      }
      x := x + 1;
    }
    PartwayEnd(retvals, index[..], t, c);
    hit := false;
  }

  /** One entry of the table. */
  method TryOne(index: array<nat>, x: nat, c: char, retvals: bv16, ghost t: string) returns (hit: bool)
    requires index.Length == |RESPONSES| && x < |RESPONSES| && c != 0 as char
    requires Partway(retvals, index[..], t, c, x)
    modifies index
    ensures hit ==> Seen(retvals, t + [c], x)
    ensures !hit ==> Partway(retvals, index[..], t, c, x + 1)
  {
    ghost var was := index[..];
    assert At1(retvals, was[x], t, x);
    hide Partway, Index, Ends, Selected;
    var done := Advance(index, x, c, retvals, t);
    hit := done && Selected(retvals, x);
    if hit {
      PartwaySeen(retvals, was, t, c, x);
    } else {
      PartwayNext(retvals, was, t, c, x, index[..]);
    }
  }

  /** One character into the line buffer, which is cleared by CR LF. */
  method Store(buffer: array<char>, n: nat, c: char, ghost t: string) returns (numstored: nat)
    requires n < buffer.Length && n == |Kept(t)| && buffer[..n] == Kept(t)
    modifies buffer
    ensures numstored == n + 1 == |Line(t + [c])| && buffer[..numstored] == Line(t + [c])
  {
    assert (t + [c])[..|t|] == t;
    hide Kept;
    buffer[n] := c;
    numstored := n + 1;
  }

  method ClearAtLineEnd(buffer: array<char>, n: nat, ghost t: string) returns (numstored: nat)
    requires t != "" && n <= buffer.Length && n == |Line(t)| && buffer[..n] == Line(t)
    ensures numstored == |Kept(t)| <= n && buffer[..numstored] == Kept(t)
  {
    numstored := n;
    if numstored >= 2 && buffer[numstored - 2] == '\r' && buffer[numstored - 1] == '\n' {
      assert buffer[..n][n - 2..] == "\r\n";
      numstored := 0;
    } else {
      assert !Ends("\r\n", Line(t));
    }
  }

  /** t has been processed, and nothing else was read but c, if anything. */
  ghost predicate ReadSoFar(all: string, t: string, got: bool, c: char, rest: string) {
    all == t + (if got then [c] + rest else rest) && (!got ==> rest == "")
  }

  /** One character that fits the buffer: into the line, then through the table. */
  method TakeCharacter(buffer: array<char>, index: array<nat>, n: nat, c: char, retvals: bv16, ghost t: string)
    returns (hit: bool, at: nat, numstored: nat)
    requires n < buffer.Length && n == |Kept(t)| && buffer[..n] == Kept(t)
    requires index.Length == |RESPONSES| && c != 0 as char && Waiting(retvals, index[..], t)
    modifies buffer, index
    ensures numstored <= n + 1
    ensures hit ==> numstored == |Line(t + [c])|
    ensures hit ==> at < |RESPONSES| && Seen(retvals, t + [c], at) && buffer[..numstored] == Line(t + [c])
    ensures !hit ==> Waiting(retvals, index[..], t + [c])
    ensures !hit ==> numstored == |Kept(t + [c])| && buffer[..numstored] == Kept(t + [c])
  {
    hide Line, Kept, Waiting, Seen;
    numstored := Store(buffer, n, c, t);
    hit, at := TryAll(index, c, retvals, t);
    if !hit {
      numstored := ClearAtLineEnd(buffer, numstored, t + [c]);
    }
  }

  /** buffer[n] = 0, a write inside the array or one past its end. */
  method Terminate(buffer: array<char>, n: nat) returns (inside: bool)
    requires n <= buffer.Length
    modifies buffer
    ensures inside <==> n < buffer.Length
    ensures buffer[..n] == old(buffer[..n]) && (inside ==> buffer[n] == 0 as char)
  {
    inside := n < buffer.Length;
    if inside { buffer[n] := 0 as char; }
  }

  /** The line at the end of the call: with its last character when an answer has been seen. */
  function LineAtEnd(hit: bool, t: string): string
    requires hit ==> t != ""
  {
    if hit then Line(t) else Kept(t)
  }

  /**
    * esp8266ReadSwitch: t is what was processed. On a hit it ends with the answer seen,
    * the first of the selected answers in the table; otherwise no selected answer was
    * seen, and the input ended, by a timeout or a NUL, or the buffer was full. The
    * buffer holds the current line, and a NUL behind it unless that place is past the
    * end of the array. (x is the place of the answer in the table.)
    */
  method ReadSwitch(usart: Usart, retvals: bv16, buffer: array<char>, bufsiz: nat)
    returns (hit: bool, ret: bv16, numstored: nat, inside: bool, ghost x: nat, ghost t: string, ghost dropped: string)
    requires bufsiz <= buffer.Length
    modifies usart, buffer
    ensures old(usart.rest) == t + dropped + usart.rest
    ensures hit ==> x < |VALUES| && ret == VALUES[x] && Seen(retvals, t, x) && dropped == ""
    ensures !hit ==> forall y :: 0 <= y < |RESPONSES| && Selected(retvals, y) ==> Index(RESPONSES[y], t) < |RESPONSES[y]|
    ensures !hit && dropped == "" ==> usart.rest == ""
    ensures !hit && dropped != "" ==> |dropped| == 1 && (dropped[0] == 0 as char || |Kept(t)| == bufsiz)
    ensures (hit ==> t != "") && numstored == |LineAtEnd(hit, t)| <= bufsiz && buffer[..numstored] == LineAtEnd(hit, t)
    ensures inside <==> |LineAtEnd(hit, t)| < buffer.Length
    ensures inside ==> buffer[numstored] == 0 as char
  {
    hide Index, Ends, Selected, Line, Kept, Waiting, ReadSoFar;
    ghost var all := usart.rest;
    var index := new nat[|RESPONSES|](_ => 0);
    t, dropped, x, ret, hit, inside := "", "", 0, 0, false, true;
    numstored := 0;
    NothingYet(retvals, index[..]);
    var got, c := usart.GetTimeout();
    ReadOn(all, "", got, c, usart.rest);
    while got && c != 0 as char && numstored < bufsiz
      invariant ReadSoFar(all, t, got, c, usart.rest)
      invariant Waiting(retvals, index[..], t)
      invariant numstored == |Kept(t)| <= bufsiz && buffer[..numstored] == Kept(t)
      decreases |usart.rest| + if got then 1 else 0
    {
      ghost var rest := usart.rest;
      var at;
      hit, at, numstored := TakeCharacter(buffer, index, numstored, c, retvals, t);
      ReadStep(all, t, c, rest);
      t := t + [c];
      if hit {
        inside := Terminate(buffer, numstored);
        return true, VALUES[at], numstored, inside, at, t, "";
      }
      got, c := usart.GetTimeout();
      ReadOn(all, t, got, c, usart.rest);
    }
    if got {
      dropped := [c];
    }
    ReadEnd(all, t, got, c, usart.rest);
    inside := Terminate(buffer, numstored);
    StillWaiting(retvals, index[..], t);
  }

  lemma ReadOn(all: string, t: string, got: bool, c: char, rest: string)
    requires all == t + (if got then [c] + rest else []) && (!got ==> rest == "")
    ensures ReadSoFar(all, t, got, c, rest)
  {
  }

  lemma ReadStep(all: string, t: string, c: char, rest: string)
    requires ReadSoFar(all, t, true, c, rest)
    ensures all == (t + [c]) + rest && all == (t + [c]) + [] + rest
  {
  }

  lemma ReadEnd(all: string, t: string, got: bool, c: char, rest: string)
    requires ReadSoFar(all, t, got, c, rest)
    ensures all == t + (if got then [c] else []) + rest && (!got ==> rest == "")
  {
  }

  lemma NothingYet(retvals: bv16, index: seq<nat>)
    requires |index| == |RESPONSES| && forall x :: 0 <= x < |index| ==> index[x] == 0
    ensures Waiting(retvals, index, "") && Kept("") == ""
  {
    forall x | 0 <= x < |RESPONSES| ensures At1(retvals, index[x], "", x) {
      NotEmpty(x);
    }
  }

  lemma StillWaiting(retvals: bv16, index: seq<nat>, t: string)
    requires Waiting(retvals, index, t)
    ensures forall y :: 0 <= y < |RESPONSES| && Selected(retvals, y) ==> Index(RESPONSES[y], t) < |RESPONSES[y]|
  {
    hide Index, Selected;
    forall y | 0 <= y < |RESPONSES| && Selected(retvals, y) ensures Index(RESPONSES[y], t) < |RESPONSES[y]| {
      assert At1(retvals, index[y], t, y);
    }
  }

  ghost predicate LineEndAt(t: string, i: nat) {
    i + 2 <= |t| && t[i] == '\r' && t[i + 1] == '\n'
  }

  /** What is kept is what stands behind the last CR LF, or everything. */
  lemma {:induction false} KeptDefinition(t: string) returns (k: nat)
    ensures k <= |t| && Kept(t) == t[k..]
    ensures k > 0 ==> k >= 2 && LineEndAt(t, k - 2)
    ensures forall i: nat :: k <= i ==> !LineEndAt(t, i)
    decreases |t|
  {
    if t == "" {
      k := 0;
    } else {
      var n := |t| - 1;
      k := KeptDefinition(t[..n]);
      assert Line(t) == t[k..];
      if Ends("\r\n", Line(t)) {
        assert t[k..][n - 1 - k..] == "\r\n" && t[k..][n - 1 - k] == t[n - 1] && t[k..][n - k] == t[n];
        k := |t|;
      } else {
        NoLineEnd(t, t[..n], k);
      }
    }
  }

  lemma NoLineEnd(t: string, front: string, k: nat)
    requires t != "" && front == t[..|t| - 1] && k <= |front| && Line(t) == t[k..] && !Ends("\r\n", Line(t))
    requires (k > 0 ==> k >= 2 && LineEndAt(front, k - 2)) && forall i: nat :: k <= i ==> !LineEndAt(front, i)
    ensures (k > 0 ==> LineEndAt(t, k - 2)) && forall i: nat :: k <= i ==> !LineEndAt(t, i)
  {
    EndsIs(t, k);
    hide Ends, Line;
    forall i: nat | k <= i ensures !LineEndAt(t, i) {
      if i + 2 != |t| {
        assert !LineEndAt(front, i);
      }
    }
  }

  lemma EndsIs(t: string, k: nat)
    requires k <= |t|
    ensures Ends("\r\n", t[k..]) <==> k + 2 <= |t| && LineEndAt(t, |t| - 2)
  {
    if k + 2 <= |t| {
      assert t[k..][|t| - k - 2..] == [t[|t| - 2], t[|t| - 1]];
    }
  }

  // ---- A line that fills the array ----

  lemma {:induction false} KeptPlain(t: string)
    requires '\n' !in t
    ensures Kept(t) == t
    decreases |t|
  {
    if t != "" {
      var n := |t| - 1;
      KeptPlain(t[..n]);
      assert t[..n] + [t[n]] == t;
      assert Line(t) == t;
      assert |t| >= 2 ==> t[|t| - 2..][1] == t[n];
    }
  }

  /** Every answer ends with a line end or a comma. */
  lemma LastCharacter(x: nat)
    requires x < |RESPONSES|
    ensures var p := RESPONSES[x]; |p| > 0 && (p[|p| - 1] == '\n' || p[|p| - 1] == ',')
  {
  }

  lemma PlainHasNoAnswer(x: nat, t: string)
    requires x < |RESPONSES| && '\n' !in t && ',' !in t
    ensures !Ends(RESPONSES[x], t)
  {
    LastCharacter(x);
    var p := RESPONSES[x];
    assert |t| >= |p| ==> t[|t| - |p|..][|p| - 1] == t[|t| - 1];
  }

  predicate AllX(s: string) {
    forall i :: 0 <= i < |s| ==> s[i] == 'x'
  }

  /** Called as the source calls it, with the size of the whole array, the NUL of a line of that length is written past the end. */
  method FullLineOverruns(usart: Usart, retvals: bv16, buffer: array<char>) returns (hit: bool, inside: bool)
    requires AllX(usart.rest) && |usart.rest| == buffer.Length
    modifies usart, buffer
    ensures !hit && !inside
  {
    ghost var all := usart.rest;
    hide AllX, Line, Kept, Seen, Index, Ends, Selected;
    var ret, numstored;
    ghost var x, t, dropped;
    hit, ret, numstored, inside, x, t, dropped := ReadSwitch(usart, retvals, buffer, buffer.Length);
    PartsOf(all, t, dropped, usart.rest);
    KeptPlain(t);
    if hit {
      SeenEnds(retvals, t, x);
      PlainHasNoAnswer(x, t);
    }
  }

  lemma SeenEnds(retvals: bv16, t: string, x: nat)
    requires x < |RESPONSES| && Seen(retvals, t, x)
    ensures Ends(RESPONSES[x], t)
  {
  }

  lemma PartsOf(all: string, t: string, dropped: string, rest: string)
    requires all == t + dropped + rest && AllX(all)
    ensures '\n' !in t && ',' !in t && (dropped != "" ==> dropped[0] == 'x')
  {
    assert forall i :: 0 <= i < |t| ==> t[i] == all[i];
    assert dropped != "" ==> dropped[0] == all[|t|];
  }

  // ---- Which answers are reported when ----

  /** The answer x is due at the end of t: it ends there, no selected one earlier, and none before it in the table there. */
  ghost predicate Due(retvals: bv16, t: string, x: nat)
    requires x < |RESPONSES|
  {
    && t != "" && Selected(retvals, x) && Ends(RESPONSES[x], t)
    && (forall y :: 0 <= y < x && Selected(retvals, y) ==> !Ends(RESPONSES[y], t))
    && (forall y, n :: 0 <= y < |RESPONSES| && Selected(retvals, y) && 0 <= n < |t| ==> !Ends(RESPONSES[y], t[..n]))
  }

  /**
    * With neither of the first two answers selected, the earliest end of any selected
    * answer is reported, the first in the table when several end together; and when
    * nothing is reported none of them occurred.
    */
  lemma SwitchExact(retvals: bv16, t: string)
    requires !Selected(retvals, ALREADY_CONNECTED) && !Selected(retvals, NOCHANGE)
    ensures forall x :: 0 <= x < |RESPONSES| && Seen(retvals, t, x) ==>
      && (forall y, n :: 0 <= y < |RESPONSES| && Selected(retvals, y) && 0 <= n < |t| ==> !Ends(RESPONSES[y], t[..n]))
      && (forall y :: 0 <= y < x && Selected(retvals, y) ==> !Ends(RESPONSES[y], t))
    ensures (forall y :: 0 <= y < |RESPONSES| && Selected(retvals, y) ==> Index(RESPONSES[y], t) < |RESPONSES[y]|) ==>
      forall y :: 0 <= y < |RESPONSES| && Selected(retvals, y) ==> !Occurs(RESPONSES[y], t)
  {
    hide Ends, Index, Occurs, Selected;
    TableSize();
    hide RESPONSES, VALUES;
    forall y | 0 <= y < |RESPONSES| && Selected(retvals, y)
      ensures Index(RESPONSES[y], t) < |RESPONSES[y]| ==> !Occurs(RESPONSES[y], t) && !Ends(RESPONSES[y], t)
      ensures t != "" && Index(RESPONSES[y], t[..|t| - 1]) < |RESPONSES[y]| ==>
        forall n :: 0 <= n < |t| ==> !Ends(RESPONSES[y], t[..n])
    {
      NotEmpty(y);
      TableFallbacks(y);
      ReadUntilExact(RESPONSES[y], t);
      EndsOccurs(RESPONSES[y], t);
    }
  }

  lemma EndsOccurs(p: string, t: string)
    ensures Ends(p, t) ==> Occurs(p, t)
  {
    assert t[..|t|] == t;
    assert Ends(p, t) ==> Ends(p, t[..|t|]);
  }

  /** Answers without fallbacks are seen when they are due. */
  lemma DueIsSeen(retvals: bv16, t: string, x: nat)
    requires x < |RESPONSES| && Due(retvals, t, x)
    requires !Selected(retvals, ALREADY_CONNECTED) && !Selected(retvals, NOCHANGE)
    ensures Seen(retvals, t, x)
  {
    hide Index, Ends, Selected;
    var u := t[..|t| - 1];
    forall y | 0 <= y < |RESPONSES| && Selected(retvals, y)
      ensures Index(RESPONSES[y], u) < |RESPONSES[y]| && (y < x ==> Index(RESPONSES[y], t) < |RESPONSES[y]|)
    {
      NotEmpty(y);
      TableFallbacks(y);
      assert forall n :: 0 <= n < |t| ==> !Ends(RESPONSES[y], t[..n]);
      NotYet(RESPONSES[y], t, u, |u|);
      if y < x { NotYet(RESPONSES[y], t, t, |t|); }
    }
    NotEmpty(x);
    TableFallbacks(x);
    FoundAt(RESPONSES[x], t);
    IndexSound(RESPONSES[x], t);
  }

  lemma NotYet(p: string, t: string, u: string, k: nat)
    requires |p| > 0 && NoFallback(p) && k <= |t| && u == t[..k]
    requires (forall n :: 0 <= n < |t| ==> !Ends(p, t[..n])) && (k == |t| ==> !Ends(p, t))
    ensures Index(p, u) < |p|
  {
    hide Index, Ends, NoFallback;
    assert t[..|t|] == t;
    forall n | 0 <= n <= |u| ensures !Ends(p, u[..n]) { assert u[..n] == t[..n]; }
    Complete(p, u);
    IndexSound(p, u);
  }

  /** A stream in which one of the first two answers is due and not seen. */
  function MissedStream(x: nat): string {
    if x == ALREADY_CONNECTED then "LINK IS BUILINK IS BUILDED\r\n" else "no chano change\r\n"
  }

  lemma StreamMissed(x: nat)
    requires x == ALREADY_CONNECTED || x == NOCHANGE
    ensures Ends(RESPONSES[x], MissedStream(x)) && Index(RESPONSES[x], MissedStream(x)) < |RESPONSES[x]|
  {
    MissedCut(x);
    var p := RESPONSES[x];
    var k := if x == ALREADY_CONNECTED then 12 else 7;
    hide Ends, Index, MissedStream;
    MissedByIndex(p, 1, k);
    MissedEnds(p, 1, k);
  }

  /** The stream is the answer broken off and begun again at its second character. */
  lemma MissedCut(x: nat)
    requires x == ALREADY_CONNECTED || x == NOCHANGE
    ensures
      var p, k := RESPONSES[x], if x == ALREADY_CONNECTED then 12 else 7;
      k < |p| && p[1] != p[k] && Ends(p[..1], p[..k]) && p[..k] + p[1..] == MissedStream(x)
  {
    if x == ALREADY_CONNECTED { LinkCut(); } else { ChangeCut(); }
  }

  lemma LinkCut()
    ensures
      var p := RESPONSES[ALREADY_CONNECTED];
      |p| > 12 && p[1] != p[12] && Ends(p[..1], p[..12]) && p[..12] + p[1..] == MissedStream(ALREADY_CONNECTED)
  {
    var p := RESPONSES[ALREADY_CONNECTED];
    assert p[..12] == "LINK IS BUIL" && p[1..] == "INK IS BUILDED\r\n" && p[..1] == "L" && p[..12][11..] == "L";
  }

  lemma ChangeCut()
    ensures
      var p := RESPONSES[NOCHANGE];
      |p| > 7 && p[1] != p[7] && Ends(p[..1], p[..7]) && p[..7] + p[1..] == MissedStream(NOCHANGE)
  {
    var p := RESPONSES[NOCHANGE];
    assert p[..7] == "no chan" && p[1..] == "o change\r\n" && p[..1] == "n" && p[..7][6..] == "n";
  }

  lemma MissedIsDue(retvals: bv16, x: nat)
    requires (x == ALREADY_CONNECTED || x == NOCHANGE) && Selected(retvals, x)
    ensures Due(retvals, MissedStream(x), x)
  {
    TableSize();
    hide Ends, Selected, Index, MissedStream, RESPONSES, VALUES;
    var t := MissedStream(x);
    StreamMissed(x);
    PlainBeforeEnd(x);
    NoneBefore(t);
    if x == NOCHANGE { OtherAnswer(); }
  }

  lemma NoneBefore(t: string)
    requires |t| > 0 && '\n' !in t[..|t| - 1] && ',' !in t[..|t| - 1]
    ensures forall y, n :: 0 <= y < |RESPONSES| && 0 <= n < |t| ==> !Ends(RESPONSES[y], t[..n])
  {
    hide Ends, RESPONSES;
    forall y, n | 0 <= y < |RESPONSES| && 0 <= n < |t| ensures !Ends(RESPONSES[y], t[..n]) {
      PlainBefore(y, t, n);
    }
  }

  lemma PlainBeforeEnd(x: nat)
    ensures var t := MissedStream(x); |t| > 0 && '\n' !in t[..|t| - 1] && ',' !in t[..|t| - 1]
  {
  }

  lemma PlainBefore(y: nat, t: string, n: nat)
    requires y < |RESPONSES| && n < |t| && '\n' !in t[..|t| - 1] && ',' !in t[..|t| - 1]
    ensures !Ends(RESPONSES[y], t[..n])
  {
    assert t[..n] == t[..|t| - 1][..n];
    PlainHasNoAnswer(y, t[..n]);
  }

  lemma OtherAnswer()
    ensures !Ends(RESPONSES[ALREADY_CONNECTED], MissedStream(NOCHANGE))
  {
    var p, t := RESPONSES[ALREADY_CONNECTED], MissedStream(NOCHANGE);
    assert |p| == |t| && t[0..][0] == 'n' && p[0] == 'L';
  }

  /**
    * Every answer that is due is seen, on every stream, exactly for the masks that select
    * neither of the first two answers; for the others some stream is answered late or not at all.
    */
  lemma SwitchComplete(retvals: bv16)
    ensures (forall t, x :: 0 <= x < |RESPONSES| && Due(retvals, t, x) ==> Seen(retvals, t, x))
            <==> !Selected(retvals, ALREADY_CONNECTED) && !Selected(retvals, NOCHANGE)
  {
    hide Due, Ends, Index, Selected;
    if !Selected(retvals, ALREADY_CONNECTED) && !Selected(retvals, NOCHANGE) {
      forall t, x | 0 <= x < |RESPONSES| && Due(retvals, t, x) ensures Seen(retvals, t, x) {
        DueIsSeen(retvals, t, x);
      }
    } else {
      var x := if Selected(retvals, ALREADY_CONNECTED) then ALREADY_CONNECTED else NOCHANGE;
      MissedIsDue(retvals, x);
      StreamMissed(x);
      assert Due(retvals, MissedStream(x), x) && !Seen(retvals, MissedStream(x), x);
    }
  }

  /** What is reported is decided by what is seen: nothing is seen before it, and nothing else at the same end. */
  lemma SeenOnce(retvals: bv16, t: string, x: nat, u: string, y: nat)
    requires x < |RESPONSES| && y < |RESPONSES| && Seen(retvals, t, x) && Seen(retvals, u, y)
    requires |t| <= |u| && u[..|t|] == t
    ensures t == u && x == y
  {
    hide Ends, Selected;
    if |t| < |u| {
      var v := u[..|u| - 1];
      assert v[..|t|] == t;
      hide Index;
      IndexStays(RESPONSES[x], v, |t|);
    } else {
      assert u[..|t|] == u;
    }
  }

  /** On the streams above the call ends without reporting the answer that is due. */
  method MissedAnswer(usart: Usart, retvals: bv16, buffer: array<char>, bufsiz: nat, ghost y: nat) returns (hit: bool, ret: bv16)
    requires (y == ALREADY_CONNECTED || y == NOCHANGE) && Selected(retvals, y)
    requires usart.rest == MissedStream(y) && |MissedStream(y)| <= bufsiz <= buffer.Length
    modifies usart, buffer
    ensures Due(retvals, MissedStream(y), y)
    ensures hit ==> ret != VALUES[y]
  {
    MissedIsDue(retvals, y);
    TableSize();
    hide Due, Seen, MissedStream, Index, Selected, Line, Kept, LineAtEnd, RESPONSES, VALUES;
    var numstored, inside;
    ghost var all, x, t, dropped := usart.rest, 0, "", "";
    hit, ret, numstored, inside, x, t, dropped := ReadSwitch(usart, retvals, buffer, bufsiz);
    if hit {
      AnotherSeen(retvals, y, t, dropped, usart.rest, x);
    }
  }

  lemma AnotherSeen(retvals: bv16, y: nat, t: string, dropped: string, rest: string, x: nat)
    requires (y == ALREADY_CONNECTED || y == NOCHANGE) && Selected(retvals, y) && MissedStream(y) == t + dropped + rest
    requires x < |RESPONSES| && Seen(retvals, t, x)
    ensures VALUES[x] != VALUES[y]
  {
    hide Seen, MissedStream, Selected;
    NeverSeen(retvals, y, t, dropped, rest);
    if x != y {
      DistinctValues(x, y);
    }
  }

  lemma NeverSeen(retvals: bv16, y: nat, t: string, dropped: string, rest: string)
    requires (y == ALREADY_CONNECTED || y == NOCHANGE) && Selected(retvals, y) && MissedStream(y) == t + dropped + rest
    ensures !Seen(retvals, t, y)
  {
    MissedIsDue(retvals, y);
    StreamMissed(y);
    var all := MissedStream(y);
    assert t == all[..|t|];
    assert |t| == |all| ==> t == all;
    hide Index, Ends, Selected, MissedStream;
  }

  lemma DistinctValues(x: nat, y: nat)
    requires x < |VALUES| && y < |VALUES| && x != y
    ensures VALUES[x] != VALUES[y]
  {
  }

  /** "no chano change" ends with the answer, and the matcher does not see it. */
  lemma NoChangeMissed()
    ensures Occurs(RESPONSES[NOCHANGE], "no chano change\r\n")
    ensures Index(RESPONSES[NOCHANGE], "no chano change\r\n") < |RESPONSES[NOCHANGE]|
  {
    StreamMissed(NOCHANGE);
    EndsOccurs(RESPONSES[NOCHANGE], MissedStream(NOCHANGE));
  }
}
