/** What the token parser accepts and refuses, and what stands at its spans, in terms of the text alone. */
module JsmnText {
  import opened JsmnSpec
  import opened JsmnRuns
  import opened JsmnTree

  // ---------- pieces of text ----------

  /** White space and separators, brackets, strings, and everything else. */
  datatype Item = Gap(c: char) | Opening(c: char) | Closing(c: char) | Quoted(s: string) | Bare(s: string)

  function Show(x: Item): (t: string)
    ensures GoodItem(x) ==> t != ""
  {
    match x
    case Gap(c) => [c]
    case Opening(c) => [c]
    case Closing(c) => [c]
    case Quoted(s) => "\"" + s + "\""
    case Bare(s) => s
  }

  predicate Hex(c: char) {
    '0' <= c <= '9' || 'a' <= c <= 'f' || 'A' <= c <= 'F'
  }

  predicate Escaped(c: char) {
    c in ['\"', '\\', '/', 'b', 'f', 'n', 'r', 't']
  }

  /** What may stand between quotes: no quote or NUL but behind a backslash, and only the escapes of JSON. */
  predicate Body(s: string)
    decreases |s|
  {
    if s == "" then true
    else if s[0] != '\\' then s[0] != '\"' && s[0] != '\0' && Body(s[1..])
    else if |s| >= 2 && Escaped(s[1]) then Body(s[2..])
    else |s| >= 6 && s[1] == 'u' && Hex(s[2]) && Hex(s[3]) && Hex(s[4]) && Hex(s[5]) && Body(s[6..])
  }

  /** What ends a bare item. */
  predicate Delimits(c: char) {
    c in [' ', '\t', '\r', '\n', ':', ',', ']', '}']
  }

  predicate Plain(c: char) {
    ' ' < c < 127 as char && !Delimits(c)
  }

  predicate AllPlain(s: string) {
    forall i :: 0 <= i < |s| ==> Plain(s[i])
  }

  predicate GoodItem(x: Item) {
    match x
    case Gap(c) => c in [' ', '\t', '\r', '\n', ':', ',']
    case Opening(c) => c == '{' || c == '['
    case Closing(c) => c == '}' || c == ']'
    case Quoted(s) => Body(s)
    case Bare(s) => s != "" && s[0] != '{' && s[0] != '[' && s[0] != '\"' && AllPlain(s)
  }

  function Text(items: seq<Item>): string {
    if items == [] then "" else Text(items[..|items| - 1]) + Show(items[|items| - 1])
  }

  /** The text ends, at its length or at a NUL. */
  predicate EndsText(rest: string) {
    rest == "" || rest[0] == '\0'
  }

  predicate Pairs(open: char, close: char) {
    (open == '{' && close == '}') || (open == '[' && close == ']')
  }

  /** The brackets still open, outermost first. */
  function Pending(items: seq<Item>): seq<char> {
    if items == [] then [] else
      var p, x := Pending(items[..|items| - 1]), items[|items| - 1];
      if x.Opening? then p + [x.c] else if x.Closing? && p != [] then p[..|p| - 1] else p
  }

  /** The bracket c closes the innermost of these. */
  predicate Closes(p: seq<char>, c: char) {
    p != [] && Pairs(p[|p| - 1], c)
  }

  /** Items of a text, every closing bracket matching and everything bare followed by what ends it. */
  predicate Lexed(items: seq<Item>) {
    items == [] ||
    var front, x := items[..|items| - 1], items[|items| - 1];
    && Lexed(front) && GoodItem(x)
    && (x.Closing? ==> Closes(Pending(front), x.c))
    && (front != [] && front[|front| - 1].Bare? ==> x.Gap? || x.Closing?)
  }

  /** What follows ends the last item if that is bare. */
  predicate Parted(items: seq<Item>, rest: string) {
    items != [] && items[|items| - 1].Bare? ==> EndsText(rest) || Delimits(rest[0])
  }

  predicate MakesToken(x: Item) {
    x.Opening? || x.Quoted? || x.Bare?
  }

  function Tokens(items: seq<Item>): nat {
    if items == [] then 0
    else Tokens(items[..|items| - 1]) + if MakesToken(items[|items| - 1]) then 1 else 0
  }

  /** What every token is and where it starts, in the order of the text. */
  function Heads(items: seq<Item>): seq<(Type, int)> {
    if items == [] then [] else
      var front, x := items[..|items| - 1], items[|items| - 1];
      var n := |Text(front)|;
      Heads(front) +
        match x
        case Opening(c) => [(if c == '{' then Object else Array, n)]
        case Quoted(_) => [(String, n + 1)]
        case Bare(_) => [(Primitive, n)]
        case _ => []
  }

  // ---------- the tokens of a state ----------

  function Bracket(kind: Type): char {
    if kind == Object then '{' else if kind == Array then '[' else ' '
  }

  function OpenChars(toks: seq<Token>): seq<char> {
    if toks == [] then [] else
      var t := toks[|toks| - 1];
      OpenChars(toks[..|toks| - 1]) + if IsOpen(t) then [Bracket(t.kind)] else []
  }

  function HeadsOf(toks: seq<Token>): (h: seq<(Type, int)>)
    ensures |h| == |toks|
  {
    seq(|toks|, i requires 0 <= i < |toks| => (toks[i].kind, toks[i].start))
  }

  ghost predicate SameBut(a: seq<Token>, b: seq<Token>) {
    |a| == |b| && forall i :: 0 <= i < |a| ==> a[i].kind == b[i].kind && a[i].start == b[i].start && a[i].end == b[i].end
  }

  lemma {:induction false} OpenSame(a: seq<Token>, b: seq<Token>)
    requires SameBut(a, b)
    ensures OpenChars(a) == OpenChars(b) && HeadsOf(a) == HeadsOf(b)
    decreases |a|
  {
    if a != [] {
      OpenSame(a[..|a| - 1], b[..|b| - 1]);
    }
  }

  lemma BumpSame(toks: seq<Token>, s: int)
    ensures SameBut(toks, Bump(toks, s))
  {
  }

  lemma Appended(toks: seq<Token>, t: Token)
    ensures OpenChars(toks + [t]) == OpenChars(toks) + (if IsOpen(t) then [Bracket(t.kind)] else [])
    ensures HeadsOf(toks + [t]) == HeadsOf(toks) + [(t.kind, t.start)]
  {
    assert (toks + [t])[..|toks|] == toks;
  }

  /** The innermost open token has the last of the open brackets, and closing it takes that away. */
  lemma {:induction false} OpenLast(toks: seq<Token>, end: nat)
    ensures
      var i := LastOpen(toks, |toks|);
      && (i == -1 <==> OpenChars(toks) == [])
      && (i != -1 ==>
            var p := OpenChars(toks);
            p[|p| - 1] == Bracket(toks[i].kind)
            && OpenChars(toks[i := toks[i].(end := end)]) == p[..|p| - 1]
            && HeadsOf(toks[i := toks[i].(end := end)]) == HeadsOf(toks))
    decreases |toks|
  {
    if toks != [] {
      var n := |toks| - 1;
      var front := toks[..n];
      var i := LastOpen(toks, |toks|);
      LastOpenFront(toks, n);
      if IsOpen(toks[n]) {
        assert toks[n := toks[n].(end := end)][..n] == front;
      } else {
        OpenLast(front, end);
        if i != -1 {
          assert toks[i := toks[i].(end := end)][..n] == front[i := front[i].(end := end)];
        }
      }
    }
  }

  lemma {:induction false} LastOpenFront(toks: seq<Token>, n: nat)
    requires n <= |toks|
    ensures LastOpen(toks, n) == LastOpen(toks[..n], n)
  {
    LastOpenSame(toks, toks[..n], n);
  }

  // ---------- running over the items ----------

  /** The run has come over the items and stands behind them. */
  ghost predicate Stands(js: string, limit: nat, items: seq<Item>, st: State) {
    && Reaches(js, limit, FRESH, st)
    && st.pos == |Text(items)| && |st.toks| == Tokens(items) && -1 <= st.super < |st.toks|
    && OpenChars(st.toks) == Pending(items) && HeadsOf(st.toks) == Heads(items)
  }

  lemma StandsFirst(js: string, limit: nat)
    ensures Stands(js, limit, [], FRESH)
  {
    ReachesSelf(js, limit, FRESH);
  }

  /** A step that does to the tokens what x asks. */
  ghost predicate Takes(js: string, limit: nat, items: seq<Item>, x: Item, st: State) {
    && !AtEnd(js, st.pos) && Step(js, limit, st).Next?
    && var b := Step(js, limit, st).st;
       b.pos == st.pos + |Show(x)| && |b.toks| == |st.toks| + (if MakesToken(x) then 1 else 0)
       && -1 <= b.super < |b.toks|
       && OpenChars(b.toks) == Pending(items + [x]) && HeadsOf(b.toks) == Heads(items + [x])
  }

  lemma StandsNext(js: string, limit: nat, items: seq<Item>, x: Item, st: State) returns (b: State)
    requires Stands(js, limit, items, st) && Takes(js, limit, items, x, st)
    ensures Stands(js, limit, items + [x], b)
  {
    hide Reaches, Step, OpenChars, HeadsOf, Pending, Heads, Show;
    assert (items + [x])[..|items|] == items;
    b := Step(js, limit, st).st;
    ReachesStep(js, limit, st);
    ReachesTrans(js, limit, FRESH, st, b);
  }

  lemma PendingNext(items: seq<Item>, x: Item)
    ensures
      var p := Pending(items);
      Pending(items + [x]) == if x.Opening? then p + [x.c] else if x.Closing? && p != [] then p[..|p| - 1] else p
    ensures
      var n := |Text(items)|;
      Heads(items + [x]) == Heads(items) +
        match x
        case Opening(c) => [(if c == '{' then Object else Array, n)]
        case Quoted(_) => [(String, n + 1)]
        case Bare(_) => [(Primitive, n)]
        case _ => []
  {
    assert (items + [x])[..|items|] == items;
  }

  lemma GapStep(js: string, limit: nat, st: State)
    requires !AtEnd(js, st.pos) && js[st.pos] in [' ', '\t', '\r', '\n', ':', ','] && -1 <= st.super < |st.toks|
    ensures
      var r := Step(js, limit, st);
      r.Next? && r.st.toks == st.toks && r.st.pos == st.pos + 1 && -1 <= r.st.super < |st.toks|
  {
    hide LastOpenContainer, LastOpen, ScanString, ScanPrimitive, Bump;
  }

  lemma TakesGap(js: string, limit: nat, items: seq<Item>, x: Item, st: State)
    requires Stands(js, limit, items, st) && x.Gap? && GoodItem(x) && At(js, st.pos, Show(x))
    ensures Takes(js, limit, items, x, st)
  {
    hide Pending, Heads, OpenChars, HeadsOf, Reaches, Step, At, Text;
    AtChars(js, st.pos, Show(x), 0);
    PendingNext(items, x);
    GapStep(js, limit, st);
  }

  /** One more token, counted in the superior one. */
  lemma Grown(toks: seq<Token>, super: int, t: Token)
    ensures
      var b := Bump(toks, super) + [t];
      && OpenChars(b) == OpenChars(toks) + (if IsOpen(t) then [Bracket(t.kind)] else [])
      && HeadsOf(b) == HeadsOf(toks) + [(t.kind, t.start)]
  {
    hide OpenChars, HeadsOf, SameBut;
    BumpSame(toks, super);
    OpenSame(toks, Bump(toks, super));
    Appended(Bump(toks, super), t);
  }

  lemma OpeningStep(js: string, limit: nat, st: State)
    requires !AtEnd(js, st.pos) && (js[st.pos] == '{' || js[st.pos] == '[')
    ensures Step(js, limit, st) == OpenStep(st, limit, if js[st.pos] == '{' then Object else Array)
  {
    hide OpenStep;
  }

  lemma TakesOpening(js: string, limit: nat, items: seq<Item>, x: Item, st: State)
    requires Stands(js, limit, items, st) && x.Opening? && GoodItem(x) && At(js, st.pos, Show(x)) && Tokens(items) < limit
    ensures Takes(js, limit, items, x, st)
  {
    hide Pending, Heads, OpenChars, HeadsOf, Reaches, Bump, Step, At, Text;
    AtChars(js, st.pos, Show(x), 0);
    PendingNext(items, x);
    OpeningStep(js, limit, st);
    Grown(st.toks, st.super, Token(if x.c == '{' then Object else Array, st.pos, -1, 0));
  }

  lemma BracketStep(js: string, limit: nat, st: State)
    requires !AtEnd(js, st.pos) && (js[st.pos] == '}' || js[st.pos] == ']')
    ensures Step(js, limit, st) == CloseStep(st, if js[st.pos] == '}' then Object else Array)
  {
    hide CloseStep;
  }

  /** The step at a closing bracket, by the brackets that are open. */
  lemma ClosingStep(st: State, c: char, p: seq<char>)
    requires (c == '}' || c == ']') && p == OpenChars(st.toks) && -1 <= st.super < |st.toks|
    ensures
      var r := CloseStep(st, if c == '}' then Object else Array);
      if Closes(p, c) then
        && r.Next? && r.added == 0 && r.st.pos == st.pos + 1 && -1 <= r.st.super < |r.st.toks| == |st.toks|
        && OpenChars(r.st.toks) == p[..|p| - 1] && HeadsOf(r.st.toks) == HeadsOf(st.toks)
      else r == Err(Inval)
  {
    OpenLast(st.toks, st.pos + 1);
    hide OpenChars, HeadsOf, LastOpen;
  }

  lemma TakesClosing(js: string, limit: nat, items: seq<Item>, x: Item, st: State)
    requires Stands(js, limit, items, st) && x.Closing? && GoodItem(x) && At(js, st.pos, Show(x)) && Closes(Pending(items), x.c)
    ensures Takes(js, limit, items, x, st)
  {
    hide Pending, Heads, OpenChars, HeadsOf, Reaches, CloseStep, At, Text, Step;
    AtChars(js, st.pos, Show(x), 0);
    PendingNext(items, x);
    BracketStep(js, limit, st);
    ClosingStep(st, x.c, Pending(items));
    hide Step, Closes;
  }

  // ---------- strings ----------

  lemma AtFrom(js: string, pos: nat, s: string, k: nat)
    requires At(js, pos, s) && k <= |s|
    ensures At(js, pos + k, s[k..])
  {
    assert s == s[..k] + s[k..];
    AtSplit(js, pos, s[..k], s[k..]);
  }

  lemma ScanPlain(js: string, pos: nat)
    requires pos < |js| && js[pos] != '\0' && js[pos] != '\"' && js[pos] != '\\'
    ensures ScanString(js, pos) == ScanString(js, pos + 1)
  {
  }

  lemma ScanEscape(js: string, pos: nat)
    requires pos + 1 < |js| && js[pos] == '\\' && Escaped(js[pos + 1])
    ensures ScanString(js, pos) == ScanString(js, pos + 2)
  {
  }

  /** The scan for the closing quote goes over whatever a string may hold. */
  lemma {:induction false} ScanBody(js: string, pos: nat, s: string)
    requires Body(s) && At(js, pos, s)
    ensures ScanString(js, pos) == ScanString(js, pos + |s|)
    decreases |s|
  {
    hide *;
    if s != "" {
      BodyParts(s);
      AtWithin(js, pos, s);
      if s[0] != '\\' {
        ScanPlain(js, pos);
        AtFrom(js, pos, s, 1);
        ScanBody(js, pos + 1, s[1..]);
      } else if Escaped(s[1]) {
        ScanEscape(js, pos);
        AtFrom(js, pos, s, 2);
        ScanBody(js, pos + 2, s[2..]);
      } else {
        UnicodeAt(js, pos, s);
        AtFrom(js, pos, s, 6);
        ScanBody(js, pos + 6, s[6..]);
      }
    }
  }

  lemma AtWithin(js: string, pos: nat, s: string)
    requires At(js, pos, s)
    ensures pos + |s| <= |js| && (|s| > 0 ==> js[pos] == s[0]) && (|s| > 1 ==> js[pos + 1] == s[1])
  {
    if |s| > 0 { AtChar(js, pos, s, 0); }
    if |s| > 1 { AtChar(js, pos, s, 1); }
  }

  lemma BodyParts(s: string)
    requires Body(s) && s != ""
    ensures s[0] != '\\' ==> s[0] != '\"' && s[0] != '\0' && Body(s[1..])
    ensures s[0] == '\\' ==> |s| >= 2
    ensures s[0] == '\\' && Escaped(s[1]) ==> Body(s[2..])
    ensures s[0] == '\\' && !Escaped(s[1]) ==>
      |s| >= 6 && s[1] == 'u' && Hex(s[2]) && Hex(s[3]) && Hex(s[4]) && Hex(s[5]) && Body(s[6..])
  {
  }

  lemma UnicodeAt(js: string, pos: nat, s: string)
    requires |s| >= 6 && s[0] == '\\' && s[1] == 'u' && Hex(s[2]) && Hex(s[3]) && Hex(s[4]) && Hex(s[5]) && At(js, pos, s)
    ensures ScanString(js, pos) == ScanString(js, pos + 6)
  {
    AtChar(js, pos, s, 0);
    AtChar(js, pos, s, 1);
    AtChar(js, pos, s, 2);
    AtChar(js, pos, s, 3);
    AtChar(js, pos, s, 4);
    AtChar(js, pos, s, 5);
    FourHex(js, pos + 2);
  }

  lemma ScanQuoted(js: string, pos: nat, s: string)
    requires Body(s) && At(js, pos, "\"" + s + "\"")
    ensures pos < |js| && js[pos] == '\"' && ScanString(js, pos + 1) == Closed(pos + 1 + |s|)
  {
    var t := "\"" + s + "\"";
    hide ScanString, Body, At;
    AtChars(js, pos, t, 0);
    AtChars(js, pos, t, |s| + 1);
    QuoteAssoc(s);
    AtSplit(js, pos, "\"", s + "\"");
    AtSplit(js, pos + 1, s, "\"");
    ScanBody(js, pos + 1, s);
    QuoteCloses(js, pos + 1 + |s|);
  }

  lemma AtChars(js: string, pos: nat, text: string, i: nat)
    requires At(js, pos, text) && i < |text|
    ensures pos + i < |js| && js[pos + i] == text[i]
  {
    AtChar(js, pos, text, i);
  }

  lemma QuoteCloses(js: string, i: nat)
    requires i < |js| && js[i] == '\"'
    ensures ScanString(js, i) == Closed(i)
  {
  }

  lemma TakesQuoted(js: string, limit: nat, items: seq<Item>, x: Item, st: State)
    requires Stands(js, limit, items, st) && x.Quoted? && GoodItem(x) && At(js, st.pos, Show(x)) && Tokens(items) < limit
    ensures Takes(js, limit, items, x, st)
  {
    hide Pending, Heads, OpenChars, HeadsOf, Reaches, Bump, Step, ScanString, Body, At, Text;
    ScanQuoted(js, st.pos, x.s);
    PendingNext(items, x);
    StepAtQuote(js, limit, st, st.pos + 1 + |x.s|);
    Grown(st.toks, st.super, Token(String, st.pos + 1, st.pos + 1 + |x.s|, 0));
  }

  lemma PlainStep(js: string, limit: nat, st: State, s: string)
    requires GoodItem(Bare(s)) && At(js, st.pos, s) && Follows(js, st.pos + |s|) && |st.toks| < limit
    ensures !AtEnd(js, st.pos)
    ensures Step(js, limit, st) == Append(st, limit, Token(Primitive, st.pos, st.pos + |s|, 0), st.pos + |s|)
  {
    AtChar(js, st.pos, s, 0);
    ScanPrimitiveOk(js, st.pos, s);
    hide ScanPrimitive, Append;
  }

  lemma TakesBare(js: string, limit: nat, items: seq<Item>, x: Item, st: State)
    requires Stands(js, limit, items, st) && x.Bare? && GoodItem(x) && At(js, st.pos, Show(x)) && Tokens(items) < limit
    requires Follows(js, st.pos + |x.s|)
    ensures Takes(js, limit, items, x, st)
  {
    hide Pending, Heads, OpenChars, HeadsOf, Reaches, Bump, Step, AllPlain, At, Text, Follows;
    PlainStep(js, limit, st, x.s);
    PendingNext(items, x);
    Grown(st.toks, st.super, Token(Primitive, st.pos, st.pos + |x.s|, 0));
  }

  // ---------- the whole of the items ----------

  lemma RestAt(js: string, items: seq<Item>, rest: string)
    requires js == Text(items) + rest
    ensures |Text(items)| + |rest| == |js| && At(js, |Text(items)|, rest)
    ensures forall k :: 0 <= k < |rest| ==> js[|Text(items)| + k] == rest[k]
  {
    hide Text;
  }

  lemma RestFollows(js: string, items: seq<Item>, rest: string)
    requires js == Text(items) + rest && Parted(items, rest) && items != [] && items[|items| - 1].Bare?
    ensures Follows(js, |Text(items)|)
  {
    RestAt(js, items, rest);
  }

  lemma FrontParted(items: seq<Item>, rest: string)
    requires items != [] && Lexed(items)
    ensures
      var front, x := items[..|items| - 1], items[|items| - 1];
      Parted(front, Show(x) + rest)
  {
  }

  /** Items within the limit are run over. */
  lemma {:induction false} ItemsReach(js: string, limit: nat, items: seq<Item>, rest: string) returns (st: State)
    requires js == Text(items) + rest && Lexed(items) && Parted(items, rest) && Tokens(items) <= limit
    ensures Stands(js, limit, items, st)
    decreases |items|
  {
    hide *;
    if items == [] {
      st := FRESH;
      StandsFirst(js, limit);
    } else {
      var front, x := items[..|items| - 1], items[|items| - 1];
      LastItem(js, items, rest);
      FrontParted(items, rest);
      st := ItemsReach(js, limit, front, Show(x) + rest);
      StandsAt(js, limit, front, st);
      ItemTaken(js, limit, front, x, st);
      st := StandsNext(js, limit, front, x, st);
    }
  }

  lemma StandsAt(js: string, limit: nat, items: seq<Item>, st: State)
    requires Stands(js, limit, items, st)
    ensures st.pos == |Text(items)|
  {
  }

  /** The last item: where it stands and what is asked of it. */
  lemma LastItem(js: string, items: seq<Item>, rest: string)
    requires items != [] && js == Text(items) + rest && Lexed(items) && Parted(items, rest)
    ensures
      var front, x := items[..|items| - 1], items[|items| - 1];
      && items == front + [x] && Lexed(front) && GoodItem(x)
      && js == Text(front) + (Show(x) + rest) && At(js, |Text(front)|, Show(x))
      && (x.Closing? ==> Closes(Pending(front), x.c))
      && (x.Bare? ==> Follows(js, |Text(front)| + |x.s|))
      && Tokens(items) == Tokens(front) + if MakesToken(x) then 1 else 0
  {
    var front, x := items[..|items| - 1], items[|items| - 1];
    hide *;
    LexedLast(items);
    TextLast(items);
    TextEnds(js, front, x, rest);
    if x.Bare? { RestFollows(js, items, rest); BareLength(items); }
  }

  lemma LexedLast(items: seq<Item>)
    requires items != [] && Lexed(items)
    ensures
      var front, x := items[..|items| - 1], items[|items| - 1];
      && items == front + [x] && Lexed(front) && GoodItem(x) && (x.Closing? ==> Closes(Pending(front), x.c))
      && Tokens(items) == Tokens(front) + if MakesToken(x) then 1 else 0
  {
    hide GoodItem, Closes, Pending;
  }

  lemma TextLast(items: seq<Item>)
    requires items != []
    ensures Text(items) == Text(items[..|items| - 1]) + Show(items[|items| - 1])
  {
    hide Show;
  }

  lemma BareLength(items: seq<Item>)
    requires items != [] && items[|items| - 1].Bare?
    ensures |Text(items)| == |Text(items[..|items| - 1])| + |items[|items| - 1].s|
  {
  }

  lemma TextEnds(js: string, front: seq<Item>, x: Item, rest: string)
    requires js == Text(front) + Show(x) + rest
    ensures js == Text(front) + (Show(x) + rest) && At(js, |Text(front)|, Show(x))
  {
    hide Text, Show;
  }

  lemma ItemTaken(js: string, limit: nat, front: seq<Item>, x: Item, st: State)
    requires Stands(js, limit, front, st) && GoodItem(x) && At(js, st.pos, Show(x))
    requires x.Closing? ==> Closes(Pending(front), x.c)
    requires x.Bare? ==> Follows(js, st.pos + |x.s|)
    requires Tokens(front) + (if MakesToken(x) then 1 else 0) <= limit
    ensures Takes(js, limit, front, x, st)
  {
    hide Stands, Takes, GoodItem, Closes, Pending, Tokens, Show;
    match x
    case Gap(_) => TakesGap(js, limit, front, x, st);
    case Opening(_) => TakesOpening(js, limit, front, x, st);
    case Closing(_) => TakesClosing(js, limit, front, x, st);
    case Quoted(_) => TakesQuoted(js, limit, front, x, st);
    case Bare(_) => TakesBare(js, limit, front, x, st);
  }

  // ---------- where a text stops ----------

  /** At most k characters, all of them hex digits. */
  predicate HexDigits(s: string, k: nat) {
    |s| <= k && forall i :: 0 <= i < |s| ==> Hex(s[i])
  }

  /** Behind what a string may hold: a backslash before something else, or \\u with something else among its four digits. */
  ghost predicate BadEscape(tail: string) {
    |tail| >= 2 && tail[0] == '\\' && if tail[1] != 'u' then !Escaped(tail[1]) else exists k :: BadDigit(tail, k)
  }

  predicate BadDigit(tail: string, k: int) {
    0 <= k < 4 && 2 + k < |tail| && HexDigits(tail[2..2 + k], k) && !Hex(tail[2 + k]) && tail[2 + k] != '\0'
  }

  /** Behind what a string may hold: the end of the text, possibly within an escape. */
  ghost predicate CutOff(tail: string) {
    EndsText(tail) || tail == "\\" || (|tail| >= 2 && tail[0] == '\\' && tail[1] == 'u' && exists k :: NoDigit(tail, k))
  }

  predicate NoDigit(tail: string, k: int) {
    0 <= k < 4 && 2 + k <= |tail| && HexDigits(tail[2..2 + k], k) && EndsText(tail[2 + k..])
  }

  /** A string that goes wrong. */
  ghost predicate BadString(rest: string, s: string, tail: string) {
    rest == "\"" + s + tail && Body(s) && BadEscape(tail)
  }

  ghost predicate OpenString(rest: string, s: string, tail: string) {
    rest == "\"" + s + tail && Body(s) && CutOff(tail)
  }

  /** A bare item that runs into a character which is neither allowed in it nor ends it. */
  ghost predicate BadBare(rest: string, s: string, tail: string) {
    && rest == s + tail && AllPlain(s) && (s != "" ==> s[0] != '{' && s[0] != '[' && s[0] != '\"')
    && tail != "" && tail[0] != '\0' && !Plain(tail[0]) && !Delimits(tail[0])
  }

  ghost predicate BadBracket(items: seq<Item>, rest: string) {
    rest != "" && (rest[0] == '}' || rest[0] == ']') && !Closes(Pending(items), rest[0])
  }

  lemma {:induction false} HexRunOver(js: string, i: nat, s: string, n: nat)
    requires HexDigits(s, n) && At(js, i, s)
    ensures HexRun(js, i, n) == HexRun(js, i + |s|, n - |s|)
    decreases |s|
  {
    if s != "" {
      AtChar(js, i, s, 0);
      AtFrom(js, i, s, 1);
      HexRunOver(js, i + 1, s[1..], n - 1);
    }
  }

  lemma ScanBad(js: string, pos: nat, tail: string)
    requires At(js, pos, tail) && BadEscape(tail)
    ensures ScanString(js, pos) == BadScan(Inval)
  {
    AtWithin(js, pos, tail);
    if tail[1] == 'u' {
      var k :| BadDigit(tail, k);
      AtChars(js, pos, tail, 2 + k);
      AtSlice(js, pos, tail, 2, 2 + k);
      HexRunOver(js, pos + 2, tail[2..2 + k], 4);
    }
  }

  lemma AtSlice(js: string, pos: nat, t: string, i: nat, j: nat)
    requires At(js, pos, t) && i <= j <= |t|
    ensures At(js, pos + i, t[i..j])
  {
    AtFrom(js, pos, t, i);
    assert t[i..] == t[i..j] + t[j..];
    AtSplit(js, pos + i, t[i..j], t[j..]);
  }

  lemma ScanCut(js: string, pos: nat, tail: string)
    requires pos + |tail| == |js| && At(js, pos, tail) && CutOff(tail)
    ensures ScanString(js, pos) == BadScan(Part)
  {
    if EndsText(tail) {
      ScanEnd(js, pos, tail);
    } else {
      AtWithin(js, pos, tail);
      if tail == "\\" {
        ScanEnd(js, pos + 1, "");
      } else {
        var k :| NoDigit(tail, k);
        AtSlice(js, pos, tail, 2, 2 + k);
        AtFrom(js, pos, tail, 2 + k);
        HexRunOver(js, pos + 2, tail[2..2 + k], 4);
        ScanEnd(js, pos + 2 + k, tail[2 + k..]);
      }
    }
  }

  lemma ScanEnd(js: string, pos: nat, tail: string)
    requires pos + |tail| == |js| && At(js, pos, tail) && EndsText(tail)
    ensures AtEnd(js, pos) && ScanString(js, pos) == BadScan(Part)
  {
    AtWithin(js, pos, tail);
  }

  lemma {:induction false} ScanBare(js: string, pos: nat, s: string, tail: string)
    requires At(js, pos, s + tail) && AllPlain(s) && tail != "" && tail[0] != '\0' && !Plain(tail[0]) && !Delimits(tail[0])
    ensures ScanPrimitive(js, pos) == BadScan(Inval)
    decreases |s|
  {
    AtChars(js, pos, s + tail, 0);
    if s != "" {
      AtFrom(js, pos, s + tail, 1);
      assert (s + tail)[1..] == s[1..] + tail;
      ScanBare(js, pos + 1, s[1..], tail);
    }
  }

  // ---------- how every text is parsed ----------

  /** Why the items end where they do. */
  datatype Stop = AtTextEnd | AtBracket | AtEscape(s: string, tail: string) | AtQuote(s: string, tail: string)
                | AtCharacter(s: string, tail: string)

  ghost predicate StopsBy(items: seq<Item>, rest: string, why: Stop) {
    match why
    case AtTextEnd => EndsText(rest)
    case AtBracket => BadBracket(items, rest)
    case AtEscape(s, tail) => BadString(rest, s, tail)
    case AtQuote(s, tail) => OpenString(rest, s, tail)
    case AtCharacter(s, tail) => BadBare(rest, s, tail)
  }

  /** The text is these items and then what they end at. */
  ghost predicate Analysis(js: string, items: seq<Item>, rest: string, why: Stop) {
    js == Text(items) + rest && Lexed(items) && Parted(items, rest) && StopsBy(items, rest, why)
  }

  /** What the parser must answer. */
  function Answer(items: seq<Item>, why: Stop, limit: nat): Result {
    if Tokens(items) > limit then Refused(NoMem)
    else match why
      case AtTextEnd => if Pending(items) == [] then Accepted(Tokens(items)) else Refused(Part)
      case AtQuote(_, _) => Refused(Part)
      case _ => Refused(Inval)
  }

  datatype Result = Accepted(count: nat) | Refused(error: Error)

  function ResultOf(o: Outcome): Result {
    match o case Done(n, _) => Accepted(n) case Stop(e, _) => Refused(e)
  }

  lemma RunStands(js: string, limit: nat, items: seq<Item>, st: State)
    requires Stands(js, limit, items, st)
    ensures Run(js, limit, FRESH, 0) == Run(js, limit, st, Tokens(items))
  {
    hide Run;
  }

  lemma RunStops(js: string, limit: nat, st: State, count: nat, e: Error)
    requires !AtEnd(js, st.pos) && Step(js, limit, st) == Err(e)
    ensures ResultOf(Run(js, limit, st, count)) == Refused(e)
  {
    hide Step;
  }

  lemma StopAtEnd(js: string, limit: nat, items: seq<Item>, rest: string, st: State)
    requires js == Text(items) + rest && EndsText(rest) && Stands(js, limit, items, st)
    ensures ResultOf(Run(js, limit, FRESH, 0)) == if Pending(items) == [] then Accepted(Tokens(items)) else Refused(Part)
  {
    RunStands(js, limit, items, st);
    RestAt(js, items, rest);
    OpenLast(st.toks, 0);
  }

  lemma StopAtBracket(js: string, limit: nat, items: seq<Item>, rest: string, st: State)
    requires js == Text(items) + rest && BadBracket(items, rest) && Stands(js, limit, items, st)
    ensures ResultOf(Run(js, limit, FRESH, 0)) == Refused(Inval)
  {
    RunStands(js, limit, items, st);
    RestAt(js, items, rest);
    hide Run, Reaches, Pending, OpenChars, HeadsOf, Heads, Text, Tokens, CloseStep, Closes;
    BracketStep(js, limit, st);
    ClosingStep(st, rest[0], Pending(items));
    RunStops(js, limit, st, Tokens(items), Inval);
  }

  lemma QuoteStep(js: string, limit: nat, st: State, e: Error)
    requires st.pos < |js| && js[st.pos] == '\"' && ScanString(js, st.pos + 1) == BadScan(e)
    ensures !AtEnd(js, st.pos) && Step(js, limit, st) == Err(e)
  {
    hide ScanString;
  }

  lemma StopInString(js: string, limit: nat, items: seq<Item>, rest: string, s: string, tail: string, st: State)
    requires js == Text(items) + rest && Stands(js, limit, items, st) && rest == "\"" + s + tail && Body(s)
    requires BadEscape(tail) || CutOff(tail)
    ensures BadEscape(tail) ==> ResultOf(Run(js, limit, FRESH, 0)) == Refused(Inval)
    ensures CutOff(tail) ==> ResultOf(Run(js, limit, FRESH, 0)) == Refused(Part)
  {
    hide *;
    RunStands(js, limit, items, st);
    StandsAt(js, limit, items, st);
    RestAt(js, items, rest);
    StringScan(js, st.pos, s, tail);
    if BadEscape(tail) {
      QuoteStep(js, limit, st, Inval);
      RunStops(js, limit, st, Tokens(items), Inval);
    }
    if CutOff(tail) {
      QuoteStep(js, limit, st, Part);
      RunStops(js, limit, st, Tokens(items), Part);
    }
  }

  lemma StringScan(js: string, pos: nat, s: string, tail: string)
    requires At(js, pos, "\"" + s + tail) && pos + 1 + |s| + |tail| == |js| && Body(s)
    ensures pos < |js| && js[pos] == '\"'
    ensures BadEscape(tail) ==> ScanString(js, pos + 1) == BadScan(Inval)
    ensures CutOff(tail) ==> ScanString(js, pos + 1) == BadScan(Part)
  {
    hide *;
    StringAt(js, pos, s, tail);
    ScanBody(js, pos + 1, s);
    if BadEscape(tail) { ScanBad(js, pos + 1 + |s|, tail); }
    if CutOff(tail) { ScanCut(js, pos + 1 + |s|, tail); }
  }

  lemma StringAt(js: string, pos: nat, s: string, tail: string)
    requires At(js, pos, "\"" + s + tail)
    ensures pos < |js| && js[pos] == '\"' && At(js, pos + 1, s) && At(js, pos + 1 + |s|, tail)
  {
    hide At;
    var t := "\"" + s + tail;
    AtChars(js, pos, t, 0);
    AtSplit(js, pos, "\"" + s, tail);
    AtSplit(js, pos, "\"", s);
  }

  lemma StopInBare(js: string, limit: nat, items: seq<Item>, rest: string, s: string, tail: string, st: State)
    requires js == Text(items) + rest && Stands(js, limit, items, st) && BadBare(rest, s, tail)
    ensures ResultOf(Run(js, limit, FRESH, 0)) == Refused(Inval)
  {
    RunStands(js, limit, items, st);
    StandsAt(js, limit, items, st);
    RestAt(js, items, rest);
    ScanBare(js, st.pos, s, tail);
    BareStep(js, limit, st, rest);
    hide Run, Step, Text, Tokens;
    RunStops(js, limit, st, Tokens(items), Inval);
  }

  lemma BareStep(js: string, limit: nat, st: State, rest: string)
    requires At(js, st.pos, rest) && rest != "" && ScanPrimitive(js, st.pos) == BadScan(Inval)
    requires rest[0] != '\0' && !Delimits(rest[0]) && rest[0] != '{' && rest[0] != '[' && rest[0] != '\"'
    ensures !AtEnd(js, st.pos) && Step(js, limit, st) == Err(Inval)
  {
    AtChars(js, st.pos, rest, 0);
    hide ScanPrimitive;
  }

  lemma ItemRefused(js: string, limit: nat, items: seq<Item>, x: Item, st: State)
    requires Stands(js, limit, items, st) && GoodItem(x) && MakesToken(x) && At(js, st.pos, Show(x)) && Tokens(items) >= limit
    requires x.Bare? ==> Follows(js, st.pos + |x.s|)
    ensures !AtEnd(js, st.pos) && Step(js, limit, st) == Err(NoMem)
  {
    hide Reaches, Pending, OpenChars, HeadsOf, Heads, Text, Tokens, Body, ScanString, ScanPrimitive, At, AllPlain;
    AtChars(js, st.pos, Show(x), 0);
    match x {
      case Opening(_) => {}
      case Quoted(s) => { ScanQuoted(js, st.pos, s); }
      case Bare(s) => { ScanPlainItem(js, st.pos, s); }
      case _ => {}
    }
  }

  lemma ScanPlainItem(js: string, pos: nat, s: string)
    requires GoodItem(Bare(s)) && At(js, pos, s) && Follows(js, pos + |s|)
    ensures ScanPrimitive(js, pos) == Closed(pos + |s|) && Plain(s[0])
  {
    ScanPrimitiveOk(js, pos, s);
  }

  lemma {:induction false} RunsOut(js: string, limit: nat, items: seq<Item>, rest: string)
    requires js == Text(items) + rest && Lexed(items) && Parted(items, rest) && Tokens(items) > limit
    ensures ResultOf(Run(js, limit, FRESH, 0)) == Refused(NoMem)
    decreases |items|
  {
    var front, x := items[..|items| - 1], items[|items| - 1];
    LastItem(js, items, rest);
    FrontParted(items, rest);
    if Tokens(front) > limit {
      hide *;
      RunsOut(js, limit, front, Show(x) + rest);
    } else {
      assert MakesToken(x);
      hide *;
      ItemRunsOut(js, limit, front, x, rest);
    }
  }

  /** The first item without room for its token ends the run. */
  lemma ItemRunsOut(js: string, limit: nat, front: seq<Item>, x: Item, rest: string)
    requires js == Text(front) + (Show(x) + rest) && Lexed(front) && Parted(front, Show(x) + rest)
    requires GoodItem(x) && MakesToken(x) && At(js, |Text(front)|, Show(x)) && Tokens(front) == limit
    requires x.Bare? ==> Follows(js, |Text(front)| + |x.s|)
    ensures ResultOf(Run(js, limit, FRESH, 0)) == Refused(NoMem)
  {
    hide *;
    var st := ItemsReach(js, limit, front, Show(x) + rest);
    StandsAt(js, limit, front, st);
    ItemRefused(js, limit, front, x, st);
    RunStands(js, limit, front, st);
    RunStops(js, limit, st, Tokens(front), NoMem);
  }

  /** What the parser answers is decided by the text and the room alone. */
  lemma Verdict(js: string, limit: nat, items: seq<Item>, rest: string, why: Stop)
    requires Analysis(js, items, rest, why)
    ensures ResultOf(Run(js, limit, FRESH, 0)) == Answer(items, why, limit)
  {
    if Tokens(items) > limit {
      hide Run, Lexed, Parted, StopsBy, Tokens;
      RunsOut(js, limit, items, rest);
    } else {
      hide Run, Lexed, Parted, Tokens, Text, Pending, BadBracket, BadBare, BadString, OpenString, Stands, EndsText;
      var st := ItemsReach(js, limit, items, rest);
      match why {
        case AtTextEnd => { StopAtEnd(js, limit, items, rest, st); }
        case AtBracket => { StopAtBracket(js, limit, items, rest, st); }
        case AtEscape(s, tail) => { StringParts(rest, s, tail); StopInString(js, limit, items, rest, s, tail, st); }
        case AtQuote(s, tail) => { StringParts(rest, s, tail); StopInString(js, limit, items, rest, s, tail, st); }
        case AtCharacter(s, tail) => { StopInBare(js, limit, items, rest, s, tail, st); }
      }
    }
  }

  lemma StringParts(rest: string, s: string, tail: string)
    ensures BadString(rest, s, tail) ==> rest == "\"" + s + tail && Body(s) && BadEscape(tail)
    ensures OpenString(rest, s, tail) ==> rest == "\"" + s + tail && Body(s) && CutOff(tail)
  {
  }

  // ---------- every text has an analysis ----------

  lemma {:induction false} StringCases(u: string) returns (s: string, tail: string)
    ensures u == s + tail && Body(s)
    ensures (tail != "" && tail[0] == '\"') || BadEscape(tail) || CutOff(tail)
    decreases |u|
  {
    if EndsText(u) || u[0] == '\"' {
      s, tail := "", u;
    } else if u[0] != '\\' {
      s, tail := StringCases(u[1..]);
      s := [u[0]] + s;
      BodyBehind(u[..1], s, 1);
    } else if |u| == 1 {
      s, tail := "", u;
    } else if Escaped(u[1]) {
      s, tail := StringCases(u[2..]);
      s := u[..2] + s;
      BodyBehind(u[..2], s, 2);
    } else if u[1] == 'u' && |u| >= 6 && Hex(u[2]) && Hex(u[3]) && Hex(u[4]) && Hex(u[5]) {
      s, tail := StringCases(u[6..]);
      s := u[..6] + s;
      BodyBehind(u[..6], s, 6);
    } else {
      s, tail := "", u;
      if u[1] == 'u' { ShortUnicode(u); }
    }
  }

  lemma BodyBehind(a: string, s: string, k: nat)
    requires k == |a| <= |s| && s[..k] == a && Body(s[k..])
    requires (k == 1 && a[0] != '\\' && a[0] != '\"' && a[0] != '\0') || (k == 2 && a[0] == '\\' && Escaped(a[1]))
             || (k == 6 && a[0] == '\\' && a[1] == 'u' && Hex(a[2]) && Hex(a[3]) && Hex(a[4]) && Hex(a[5]))
    ensures Body(s)
  {
    assert forall i :: 0 <= i < k ==> s[i] == a[i];
  }

  /** Fewer than four digits: something else or the end comes too early. */
  lemma ShortUnicode(u: string)
    requires |u| >= 2 && u[0] == '\\' && u[1] == 'u' && !(|u| >= 6 && Hex(u[2]) && Hex(u[3]) && Hex(u[4]) && Hex(u[5]))
    ensures BadEscape(u) || CutOff(u)
  {
    var k := if |u| == 2 || !Hex(u[2]) then 0 else if |u| == 3 || !Hex(u[3]) then 1 else if |u| == 4 || !Hex(u[4]) then 2 else 3;
    assert HexDigits(u[2..2 + k], k);
    if 2 + k == |u| || u[2 + k] == '\0' {
      assert NoDigit(u, k);
    } else {
      assert BadDigit(u, k);
    }
  }

  lemma {:induction false} BareCases(u: string) returns (s: string, tail: string)
    ensures u == s + tail && AllPlain(s) && (EndsText(tail) || !Plain(tail[0]))
    ensures u != "" && Plain(u[0]) ==> s != "" && s[0] == u[0]
    decreases |u|
  {
    if u == "" || !Plain(u[0]) {
      s, tail := "", u;
    } else {
      s, tail := BareCases(u[1..]);
      s := [u[0]] + s;
    }
  }

  lemma LexedMore(items: seq<Item>, x: Item, rest: string)
    requires Lexed(items) && Parted(items, Show(x) + rest) && GoodItem(x) && (x.Closing? ==> Closes(Pending(items), x.c))
    ensures Lexed(items + [x]) && Text(items + [x]) + rest == Text(items) + (Show(x) + rest)
    ensures !x.Bare? ==> Parted(items + [x], rest)
    ensures x.Bare? && (EndsText(rest) || Delimits(rest[0])) ==> Parted(items + [x], rest)
  {
    var more := items + [x];
    assert more[..|items|] == items;
    FirstCharacter(x);
    TextMore(items, x, rest);
    hide Text, Pending, Closes, AllPlain, Body, Show;
  }

  lemma TextMore(items: seq<Item>, x: Item, rest: string)
    ensures Text(items + [x]) + rest == Text(items) + (Show(x) + rest)
  {
    assert (items + [x])[..|items|] == items;
    hide Show;
    assert Text(items + [x]) == Text(items) + Show(x);
  }

  lemma FirstCharacter(x: Item)
    requires GoodItem(x)
    ensures Show(x) != "" && Show(x)[0] != '\0' && (Delimits(Show(x)[0]) ==> x.Gap? || x.Closing?)
  {
  }

  /** One item more, or where the text stops. */
  lemma NextItem(items: seq<Item>, rest: string) returns (x: Item, behind: string, why: Stop, more: bool)
    ensures more ==>
      && rest == Show(x) + behind && GoodItem(x) && (x.Closing? ==> Closes(Pending(items), x.c))
      && (x.Bare? ==> EndsText(behind) || Delimits(behind[0]))
    ensures !more ==> StopsBy(items, rest, why)
  {
    x, behind, why, more := Gap(' '), "", AtTextEnd, false;
    if EndsText(rest) {
      return;
    }
    var c := rest[0];
    assert rest == [c] + rest[1..];
    if c in [' ', '\t', '\r', '\n', ':', ','] {
      x, behind, more := Gap(c), rest[1..], true;
    } else if c == '{' || c == '[' {
      x, behind, more := Opening(c), rest[1..], true;
    } else if c == '}' || c == ']' {
      if Closes(Pending(items), c) {
        x, behind, more := Closing(c), rest[1..], true;
      } else {
        why := AtBracket;
      }
    } else if c == '\"' {
      x, behind, why, more := NextString(rest);
    } else {
      x, behind, why, more := NextBare(rest);
    }
  }

  lemma NextString(rest: string) returns (x: Item, behind: string, why: Stop, more: bool)
    requires rest != "" && rest[0] == '\"'
    ensures more ==> x.Quoted? && rest == Show(x) + behind && GoodItem(x)
    ensures !more ==> (why.AtEscape? && BadString(rest, why.s, why.tail)) || (why.AtQuote? && OpenString(rest, why.s, why.tail))
  {
    var s, tail := StringCases(rest[1..]);
    x, behind, why, more := Quoted(s), "", AtTextEnd, false;
    assert rest == "\"" + s + tail;
    hide Body, BadEscape, CutOff;
    if tail != "" && tail[0] == '\"' {
      behind, more := tail[1..], true;
      assert rest == Show(x) + behind;
    } else if BadEscape(tail) {
      why := AtEscape(s, tail);
    } else {
      why := AtQuote(s, tail);
    }
  }

  lemma NextBare(rest: string) returns (x: Item, behind: string, why: Stop, more: bool)
    requires rest != "" && rest[0] != '\0' && !Delimits(rest[0]) && rest[0] != '{' && rest[0] != '[' && rest[0] != '\"'
    ensures more ==> x.Bare? && rest == Show(x) + behind && GoodItem(x) && (EndsText(behind) || Delimits(behind[0]))
    ensures !more ==> why.AtCharacter? && BadBare(rest, why.s, why.tail)
  {
    var s, tail := BareCases(rest);
    x, behind, why, more := Bare(s), tail, AtCharacter(s, tail), s != "" && (EndsText(tail) || Delimits(tail[0]));
  }

  lemma {:induction false} Analyse(js: string, items: seq<Item>, rest: string)
    returns (all: seq<Item>, last: string, why: Stop)
    requires js == Text(items) + rest && Lexed(items) && Parted(items, rest)
    ensures Analysis(js, all, last, why)
    decreases |rest|
  {
    hide Text, Lexed, Parted, StopsBy, Show, GoodItem, Closes, Pending, EndsText, Delimits;
    var x, behind, stop, more := NextItem(items, rest);
    if more {
      FirstCharacter(x);
      LexedMore(items, x, behind);
      all, last, why := Analyse(js, items + [x], behind);
    } else {
      all, last, why := items, rest, stop;
    }
  }

  /** Every text is analysed, so the answer to every text is the one above. */
  lemma EveryText(js: string) returns (items: seq<Item>, rest: string, why: Stop)
    ensures Analysis(js, items, rest, why)
    ensures forall limit: nat :: ResultOf(Run(js, limit, FRESH, 0)) == Answer(items, why, limit)
  {
    items, rest, why := Analyse(js, [], js);
    forall limit: nat ensures ResultOf(Run(js, limit, FRESH, 0)) == Answer(items, why, limit) {
      Verdict(js, limit, items, rest, why);
    }
  }

  /** On success the tokens are what the items call for, in their order. */
  lemma AcceptedHeads(js: string, limit: nat, items: seq<Item>, rest: string)
    requires Analysis(js, items, rest, AtTextEnd) && Pending(items) == [] && Tokens(items) <= limit
    ensures
      var o := Run(js, limit, FRESH, 0);
      o.Done? && HeadsOf(o.st.toks) == Heads(items) && o.st.pos == |Text(items)|
  {
    var st := ItemsReach(js, limit, items, rest);
    RunStands(js, limit, items, st);
    RestAt(js, items, rest);
    OpenLast(st.toks, 0);
    hide Reaches, Heads, HeadsOf, OpenChars, Pending, Text, Tokens;
  }

  // ---------- what stands at the spans ----------

  /** The characters at a span: the brackets of a container, the quotes around a string, a whole bare item. */
  ghost predicate Placed(js: string, t: Token) {
    match t.kind
    case Object => 0 <= t.start < |js| && js[t.start] == '{' && (t.end == -1 || (0 < t.end <= |js| && js[t.end - 1] == '}'))
    case Array => 0 <= t.start < |js| && js[t.start] == '[' && (t.end == -1 || (0 < t.end <= |js| && js[t.end - 1] == ']'))
    case String =>
      && 1 <= t.start <= t.end < |js| && js[t.start - 1] == '\"' && js[t.end] == '\"' && Body(js[t.start..t.end])
    case Primitive =>
      && 0 <= t.start < t.end <= |js| && AllPlain(js[t.start..t.end])
      && (t.end == |js| || js[t.end] == '\0' || Delimits(js[t.end]))
  }

  ghost predicate AllPlaced(js: string, toks: seq<Token>) {
    forall i :: 0 <= i < |toks| ==> Placed(js, toks[i])
  }

  lemma PlacedMore(js: string, toks: seq<Token>, super: int, t: Token)
    requires AllPlaced(js, toks) && Placed(js, t)
    ensures AllPlaced(js, Bump(toks, super) + [t])
  {
    hide Body, AllPlain;
    BumpSame(toks, super);
    hide Bump;
    forall i | 0 <= i < |toks| ensures Placed(js, (Bump(toks, super) + [t])[i]) {
      assert Placed(js, toks[i]);
    }
  }

  lemma StringPlaced(js: string, pos: nat, end: nat)
    requires pos <= |js| && ScanString(js, pos) == Closed(end)
    ensures pos <= end < |js| && js[end] == '\"' && Body(js[pos..end])
  {
    hide *;
    var s, tail := StringCases(js[pos..]);
    RestOf(js, pos, s, tail);
    ScanBody(js, pos, s);
    if BadEscape(tail) {
      ScanBad(js, pos + |s|, tail);
    } else if CutOff(tail) {
      ScanCut(js, pos + |s|, tail);
    } else {
      AtChars(js, pos + |s|, tail, 0);
      QuoteCloses(js, pos + |s|);
    }
  }

  lemma RestOf(js: string, pos: nat, s: string, tail: string)
    requires pos <= |js| && js[pos..] == s + tail
    ensures pos + |s| + |tail| == |js| && At(js, pos, s) && At(js, pos + |s|, tail) && js[pos..pos + |s|] == s
  {
    var t := s + tail;
    assert js[pos..pos + |s|] == t[..|s|] && js[pos + |s|..] == t[|s|..];
  }

  lemma {:induction false} PrimitivePlaced(js: string, pos: nat, end: nat)
    requires pos <= |js| && ScanPrimitive(js, pos) == Closed(end)
    ensures pos <= end <= |js| && AllPlain(js[pos..end]) && (end == |js| || js[end] == '\0' || Delimits(js[end]))
    decreases |js| - pos
  {
    if !(AtEnd(js, pos) || IsDelimiter(js[pos])) {
      PrimitivePlaced(js, pos + 1, end);
      assert js[pos..end] == [js[pos]] + js[pos + 1..end];
    }
  }

  lemma PlacedClose(js: string, st: State, kind: Type)
    requires AllPlaced(js, st.toks) && st.pos < |js| && js[st.pos] == (if kind == Object then '}' else ']')
    requires (kind == Object || kind == Array) && CloseStep(st, kind).Next?
    ensures AllPlaced(js, CloseStep(st, kind).st.toks)
  {
    hide Body, AllPlain, LastOpen;
    var i := LastOpen(st.toks, |st.toks|);
    assert Placed(js, st.toks[i]);
  }

  lemma PlacedStep(js: string, limit: nat, st: State)
    requires AllPlaced(js, st.toks) && !AtEnd(js, st.pos) && Step(js, limit, st).Next?
    ensures AllPlaced(js, Step(js, limit, st).st.toks)
  {
    hide AllPlaced, Bump, LastOpen, LastOpenContainer, ScanString, ScanPrimitive, Body, AllPlain, CloseStep;
    var c := js[st.pos];
    if c == '{' || c == '[' {
      PlacedMore(js, st.toks, st.super, Token(if c == '{' then Object else Array, st.pos, -1, 0));
    } else if c == '}' || c == ']' {
      PlacedClose(js, st, if c == '}' then Object else Array);
    } else if c == '\"' {
      var q := ScanString(js, st.pos + 1);
      StringPlaced(js, st.pos + 1, q.at);
      PlacedMore(js, st.toks, st.super, Token(String, st.pos + 1, q.at, 0));
    } else if IsDelimiter(c) {
      hide Step;
      SameTokens(js, limit, st);
    } else {
      var q := ScanPrimitive(js, st.pos);
      PrimitivePlaced(js, st.pos, q.at);
      PlacedMore(js, st.toks, st.super, Token(Primitive, st.pos, q.at, 0));
    }
  }

  lemma SameTokens(js: string, limit: nat, st: State)
    requires !AtEnd(js, st.pos) && js[st.pos] in [' ', '\t', '\r', '\n', ':', ',']
    ensures Step(js, limit, st).Next? && Step(js, limit, st).st.toks == st.toks
  {
    hide LastOpenContainer, LastOpen, ScanString, ScanPrimitive, Bump;
  }

  /** So it is in every reachable state. */
  lemma {:induction false} PlacedRun(js: string, limit: nat, st: State, count: nat)
    requires AllPlaced(js, st.toks)
    ensures AllPlaced(js, Run(js, limit, st, count).st.toks)
    decreases |js| - st.pos
  {
    if !AtEnd(js, st.pos) {
      var s := Step(js, limit, st);
      if s.Next? {
        PlacedStep(js, limit, st);
        hide Step, AllPlaced;
        PlacedRun(js, limit, s.st, count + s.added);
      }
    }
  }

  /** After a success, of any text in any array, every span has its characters, and both ends. */
  lemma SpansPlaced(js: string, limit: nat, i: nat)
    requires Run(js, limit, FRESH, 0).Done? && i < |Run(js, limit, FRESH, 0).st.toks|
    ensures
      var t := Run(js, limit, FRESH, 0).st.toks[i];
      && 0 <= t.start <= t.end <= |js| && Placed(js, t)
  {
    PlacedRun(js, limit, FRESH, 0);
    SuccessIsForest(js, limit);
    hide Run, Body, AllPlain;
  }
}
