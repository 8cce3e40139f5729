/** Parsing the text of a JSON tree gives its preorder token list (jsmn.c, README: "token types", "size"). */
module JsmnTree {
  import opened JsmnSpec
  import opened JsmnRuns

  // ---------- trees and their texts ----------

  /** A JSON value with the white space of one of its texts: w stands after the opening bracket. */
  datatype Json =
    | JString(s: string)
    | JPrimitive(s: string)
    | JArray(w: string, es: Elems)
    | JObject(w: string, ms: Members)

  datatype Elems = ENil | ECons(pre: string, v: Json, post: string, rest: Elems)

  datatype Members = MNil | MCons(pre: string, key: string, w1: string, w2: string, v: Json, post: string, rest: Members)

  function Print(v: Json): string {
    match v
    case JString(s) => "\"" + s + "\""
    case JPrimitive(s) => s
    case JArray(w, es) => "[" + w + PrintElems(es) + "]"
    case JObject(w, ms) => "{" + w + PrintMembers(ms) + "}"
  }

  function PrintElems(es: Elems): string {
    match es
    case ENil => ""
    case ECons(pre, v, post, rest) => pre + Print(v) + post + if rest.ENil? then "" else "," + PrintElems(rest)
  }

  function PrintKey(key: string, w1: string, w2: string): string {
    "\"" + key + "\"" + w1 + ":" + w2
  }

  function PrintMembers(ms: Members): string {
    match ms
    case MNil => ""
    case MCons(pre, key, w1, w2, v, post, rest) =>
      pre + PrintKey(key, w1, w2) + Print(v) + post + if rest.MNil? then "" else "," + PrintMembers(rest)
  }

  predicate AllSpace(w: string) {
    forall i :: 0 <= i < |w| ==> IsSpace(w[i])
  }

  /** String contents: plain characters and the escapes of JSON. */
  predicate StringOk(s: string)
    decreases |s|
  {
    if |s| == 0 then true
    else if s[0] == '\\' then
      if |s| >= 2 && IsEscape(s[1]) then StringOk(s[2..])
      else |s| >= 6 && s[1] == 'u' && IsHex(s[2]) && IsHex(s[3]) && IsHex(s[4]) && IsHex(s[5]) && StringOk(s[6..])
    else s[0] != '\"' && s[0] != '\0' && StringOk(s[1..])
  }

  /** Numbers, true, false and null: printable, no delimiter, and no character that starts another token. */
  predicate PrimitiveOk(s: string) {
    |s| > 0 && s[0] != '{' && s[0] != '[' && s[0] != '\"'
    && forall i :: 0 <= i < |s| ==> ' ' <= s[i] < 127 as char && !IsDelimiter(s[i])
  }

  predicate Ok(v: Json) {
    match v
    case JString(s) => StringOk(s)
    case JPrimitive(s) => PrimitiveOk(s)
    case JArray(w, es) => AllSpace(w) && ElemsOk(es)
    case JObject(w, ms) => AllSpace(w) && MembersOk(ms)
  }

  predicate ElemsOk(es: Elems) {
    es.ECons? ==> AllSpace(es.pre) && AllSpace(es.post) && Ok(es.v) && ElemsOk(es.rest)
  }

  predicate MembersOk(ms: Members) {
    ms.MCons? ==>
      AllSpace(ms.pre) && StringOk(ms.key) && AllSpace(ms.w1) && AllSpace(ms.w2)
      && AllSpace(ms.post) && Ok(ms.v) && MembersOk(ms.rest)
  }

  // ---------- the tokens a tree should give ----------

  function ElemCount(es: Elems): (n: nat) {
    if es.ENil? then 0 else 1 + ElemCount(es.rest)
  }

  function MemberCount(ms: Members): (n: nat) {
    if ms.MNil? then 0 else 1 + MemberCount(ms.rest)
  }

  /** Preorder, with spans in the text printed from pos on: size counts elements or members, 1 for a key. */
  function Toks(v: Json, pos: nat): (t: seq<Token>) {
    match v
    case JString(s) => [Token(String, pos + 1, pos + 1 + |s|, 0)]
    case JPrimitive(s) => [Token(Primitive, pos, pos + |s|, 0)]
    case JArray(w, es) => [Token(Array, pos, pos + |Print(v)|, ElemCount(es))] + ElemsToks(es, pos + 1 + |w|)
    case JObject(w, ms) => [Token(Object, pos, pos + |Print(v)|, MemberCount(ms))] + MembersToks(ms, pos + 1 + |w|)
  }

  function ElemsToks(es: Elems, pos: nat): (t: seq<Token>) {
    match es
    case ENil => []
    case ECons(pre, v, post, rest) =>
      Toks(v, pos + |pre|) + ElemsToks(rest, pos + |pre| + |Print(v)| + |post| + 1)
  }

  function MembersToks(ms: Members, pos: nat): (t: seq<Token>) {
    match ms
    case MNil => []
    case MCons(pre, key, w1, w2, v, post, rest) =>
      var p := pos + |pre|;
      var q := p + |PrintKey(key, w1, w2)|;
      [Token(String, p + 1, p + 1 + |key|, 1)] + Toks(v, q) + MembersToks(rest, q + |Print(v)| + |post| + 1)
  }

  function NumToks(v: Json): (n: nat) {
    match v
    case JString(_) => 1
    case JPrimitive(_) => 1
    case JArray(_, es) => 1 + ElemsNum(es)
    case JObject(_, ms) => 1 + MembersNum(ms)
  }

  function ElemsNum(es: Elems): (n: nat) {
    if es.ENil? then 0 else NumToks(es.v) + ElemsNum(es.rest)
  }

  function MembersNum(ms: Members): (n: nat) {
    if ms.MNil? then 0 else 1 + NumToks(ms.v) + MembersNum(ms.rest)
  }

  ghost predicate AllClosed(t: seq<Token>) {
    forall i :: 0 <= i < |t| ==> t[i].start >= 0 && t[i].end >= 0
  }

  lemma {:induction false} ToksShape(v: Json, pos: nat)
    ensures |Toks(v, pos)| == NumToks(v) && AllClosed(Toks(v, pos))
    decreases v
  {
    match v
    case JString(_) =>
    case JPrimitive(_) =>
    case JArray(w, es) => ElemsShape(es, pos + 1 + |w|);
    case JObject(w, ms) => MembersShape(ms, pos + 1 + |w|);
  }

  lemma {:induction false} ElemsShape(es: Elems, pos: nat)
    ensures |ElemsToks(es, pos)| == ElemsNum(es) && AllClosed(ElemsToks(es, pos))
    decreases es
  {
    match es
    case ENil =>
    case ECons(pre, v, post, rest) =>
      ToksShape(v, pos + |pre|);
      ElemsShape(rest, pos + |pre| + |Print(v)| + |post| + 1);
  }

  lemma {:induction false} MembersShape(ms: Members, pos: nat)
    ensures |MembersToks(ms, pos)| == MembersNum(ms) && AllClosed(MembersToks(ms, pos))
    decreases ms
  {
    match ms
    case MNil =>
    case MCons(pre, key, w1, w2, v, post, rest) =>
      var q := pos + |pre| + |PrintKey(key, w1, w2)|;
      ToksShape(v, q);
      MembersShape(rest, q + |Print(v)| + |post| + 1);
  }

  // ---------- running over a piece of text ----------

  /** The text stands in js at pos. */
  ghost predicate At(js: string, pos: nat, text: string) {
    pos + |text| <= |js| && js[pos..pos + |text|] == text
  }

  lemma AtSplit(js: string, pos: nat, a: string, b: string)
    requires At(js, pos, a + b)
    ensures At(js, pos, a) && At(js, pos + |a|, b)
  {
    var t := js[pos..pos + |a + b|];
    assert js[pos..pos + |a|] == t[..|a|] == a;
    assert js[pos + |a|..pos + |a| + |b|] == t[|a|..] == b;
  }

  lemma AtChar(js: string, pos: nat, text: string, i: nat)
    requires At(js, pos, text) && i < |text|
    ensures js[pos + i] == text[i]
  {
    assert js[pos..pos + |text|][i] == js[pos + i];
  }

  /** Every run from a goes on as a run from b. */
  ghost predicate Reaches(js: string, limit: nat, a: State, b: State) {
    |a.toks| <= |b.toks| && forall c: nat :: Run(js, limit, a, c) == Run(js, limit, b, c + (|b.toks| - |a.toks|))
  }

  lemma ReachesTrans(js: string, limit: nat, a: State, b: State, c: State)
    requires Reaches(js, limit, a, b) && Reaches(js, limit, b, c)
    ensures Reaches(js, limit, a, c)
  {
    hide Run;
    forall n: nat ensures Run(js, limit, a, n) == Run(js, limit, c, n + (|c.toks| - |a.toks|)) {
      var k := n + (|b.toks| - |a.toks|);
      assert Run(js, limit, a, n) == Run(js, limit, b, k);
      assert Run(js, limit, b, k) == Run(js, limit, c, k + (|c.toks| - |b.toks|));
    }
  }

  lemma ReachesSelf(js: string, limit: nat, a: State)
    ensures Reaches(js, limit, a, a)
  {
  }

  lemma ReachesStep(js: string, limit: nat, a: State)
    requires !AtEnd(js, a.pos) && Step(js, limit, a).Next?
    ensures Reaches(js, limit, a, Step(js, limit, a).st)
  {
    hide Step;
    var b := Step(js, limit, a);
    forall c: nat ensures Run(js, limit, a, c) == Run(js, limit, b.st, c + (|b.st.toks| - |a.toks|)) {
      assert Run(js, limit, a, c) == Run(js, limit, b.st, c + b.added);
    }
  }

  lemma {:induction false} ReachesSpaces(js: string, limit: nat, a: State, w: string)
    requires At(js, a.pos, w) && AllSpace(w)
    ensures Reaches(js, limit, a, a.(pos := a.pos + |w|))
    decreases |w|
  {
    if |w| == 0 {
      ReachesSelf(js, limit, a);
    } else {
      AtChar(js, a.pos, w, 0);
      var b := a.(pos := a.pos + 1);
      ReachesStep(js, limit, a);
      assert w == [w[0]] + w[1..];
      AtSplit(js, a.pos, [w[0]], w[1..]);
      ReachesSpaces(js, limit, b, w[1..]);
      ReachesTrans(js, limit, a, b, a.(pos := a.pos + |w|));
    }
  }

  // ---------- leaves ----------

  lemma {:induction false} ScanStringOk(js: string, pos: nat, s: string)
    requires StringOk(s) && At(js, pos, s + "\"")
    ensures ScanString(js, pos) == Closed(pos + |s|)
    decreases |s|
  {
    var t := s + "\"";
    AtChar(js, pos, t, 0);
    if |s| > 0 {
      if s[0] == '\\' {
        AtChar(js, pos, t, 1);
        if IsEscape(s[1]) {
          SkipInString(js, pos, s, 2);
          ScanStringOk(js, pos + 2, s[2..]);
        } else {
          AtChar(js, pos, t, 2);
          AtChar(js, pos, t, 3);
          AtChar(js, pos, t, 4);
          AtChar(js, pos, t, 5);
          FourHex(js, pos + 2);
          SkipInString(js, pos, s, 6);
          ScanStringOk(js, pos + 6, s[6..]);
        }
      } else {
        SkipInString(js, pos, s, 1);
        ScanStringOk(js, pos + 1, s[1..]);
      }
    }
  }

  lemma SkipInString(js: string, pos: nat, s: string, k: nat)
    requires k <= |s| && At(js, pos, s + "\"")
    ensures At(js, pos + k, s[k..] + "\"")
  {
    assert s + "\"" == s[..k] + (s[k..] + "\"");
    AtSplit(js, pos, s[..k], s[k..] + "\"");
  }

  lemma FourHex(js: string, i: nat)
    requires i + 4 <= |js| && IsHex(js[i]) && IsHex(js[i + 1]) && IsHex(js[i + 2]) && IsHex(js[i + 3])
    ensures HexRun(js, i, 4) == Closed(i + 4)
  {
    assert HexRun(js, i + 4, 0) == Closed(i + 4);
    assert HexRun(js, i + 3, 1) == HexRun(js, i + 4, 0);
    assert HexRun(js, i + 2, 2) == HexRun(js, i + 3, 1);
    assert HexRun(js, i + 1, 3) == HexRun(js, i + 2, 2);
  }

  /** What may follow a value: the end, or a delimiter. */
  ghost predicate Follows(js: string, i: nat) {
    AtEnd(js, i) || IsDelimiter(js[i])
  }

  lemma {:induction false} ScanPrimitiveOk(js: string, pos: nat, s: string)
    requires forall i :: 0 <= i < |s| ==> ' ' <= s[i] < 127 as char && !IsDelimiter(s[i])
    requires At(js, pos, s) && Follows(js, pos + |s|)
    ensures ScanPrimitive(js, pos) == Closed(pos + |s|)
    decreases |s|
  {
    if |s| > 0 {
      AtChar(js, pos, s, 0);
      assert s == [s[0]] + s[1..];
      AtSplit(js, pos, [s[0]], s[1..]);
      ScanPrimitiveOk(js, pos + 1, s[1..]);
    }
  }

  // ---------- containers ----------

  /** Token n is the innermost open one, and a container. */
  ghost predicate Inside(toks: seq<Token>, n: nat, kind: Type) {
    n < |toks| && IsOpen(toks[n]) && IsContainer(toks[n]) && toks[n].kind == kind
    && forall k :: n < k < |toks| ==> !IsOpen(toks[k])
  }

  lemma InsideScans(toks: seq<Token>, n: nat, kind: Type)
    requires Inside(toks, n, kind)
    ensures LastOpen(toks, |toks|) == n && LastOpenContainer(toks, |toks|) == n
  {
  }

  function AddSize(toks: seq<Token>, n: nat, k: nat): (r: seq<Token>)
    requires n < |toks|
    ensures |r| == |toks|
  {
    toks[n := toks[n].(size := toks[n].size + k)]
  }

  lemma InsideAppend(toks: seq<Token>, n: nat, kind: Type, k: nat, e: seq<Token>)
    requires Inside(toks, n, kind) && AllClosed(e)
    ensures Inside(AddSize(toks, n, k) + e, n, kind)
  {
  }

  lemma AddSizeTwice(toks: seq<Token>, n: nat, k: nat, l: nat, d: seq<Token>, e: seq<Token>)
    requires n < |toks|
    ensures AddSize(AddSize(toks, n, k) + d, n, l) + e == AddSize(toks, n, k + l) + (d + e)
  {
    assert AddSize(AddSize(toks, n, k) + d, n, l) == AddSize(toks, n, k + l) + d;
  }

  /** The superior token after a value: a leaf leaves it, a container leaves the container around it. */
  function After(v: Json, st: State): (s: int) {
    if v.JString? || v.JPrimitive? then st.super else LastOpen(st.toks, |st.toks|)
  }

  function ValueState(v: Json, st: State): (r: State) {
    State(st.pos + |Print(v)|, Bump(st.toks, st.super) + Toks(v, st.pos), After(v, st))
  }

  ghost predicate ValueHere(v: Json, js: string, limit: nat, st: State) {
    At(js, st.pos, Print(v)) && Follows(js, st.pos + |Print(v)|) && -1 <= st.super < |st.toks|
    && |st.toks| + NumToks(v) <= limit
  }

  lemma PrimitiveReaches(v: Json, js: string, limit: nat, st: State)
    requires v.JPrimitive? && Ok(v) && ValueHere(v, js, limit, st)
    ensures Reaches(js, limit, st, ValueState(v, st))
  {
    AtChar(js, st.pos, v.s, 0);
    ScanPrimitiveOk(js, st.pos, v.s);
    ReachesStep(js, limit, st);
  }

  lemma TextReaches(v: Json, js: string, limit: nat, st: State)
    requires v.JString? && Ok(v) && ValueHere(v, js, limit, st)
    ensures Reaches(js, limit, st, ValueState(v, st))
  {
    hide Reaches, At, StringOk;
    StringReaches(js, limit, st, v.s);
  }

  /** One value: its tokens are appended, its superior token grows by one. */
  lemma {:induction false} ValueReaches(v: Json, js: string, limit: nat, st: State)
    requires Ok(v) && ValueHere(v, js, limit, st)
    ensures Reaches(js, limit, st, ValueState(v, st))
    decreases v, 0
  {
    hide Ok, ValueHere, Reaches, ValueState;
    match v
    case JString(s) => TextReaches(v, js, limit, st);
    case JPrimitive(s) => PrimitiveReaches(v, js, limit, st);
    case JArray(w, es) => ArrayReaches(v, js, limit, st);
    case JObject(w, ms) => ObjectReaches(v, js, limit, st);
  }

  /** The closing bracket: the innermost container gets its end, the one around it becomes superior. */
  lemma CloseReaches(js: string, limit: nat, a: State, n: nat, kind: Type)
    requires !AtEnd(js, a.pos) && Inside(a.toks, n, kind) && (js[a.pos] == if kind == Object then '}' else ']')
    ensures Reaches(js, limit, a, State(a.pos + 1, a.toks[n := a.toks[n].(end := a.pos + 1)], LastOpen(a.toks, n)))
  {
    InsideScans(a.toks, n, kind);
    ReachesStep(js, limit, a);
  }

  lemma {:induction false} LastOpenSame(a: seq<Token>, b: seq<Token>, n: nat)
    requires n <= |a| && n <= |b| && forall i :: 0 <= i < n ==> IsOpen(a[i]) == IsOpen(b[i])
    ensures LastOpen(a, n) == LastOpen(b, n)
  {
    if n > 0 { LastOpenSame(a, b, n - 1); }
  }

  /** The finished container in place of the open one. */
  lemma CloseShape(base: seq<Token>, kind: Type, start: nat, end: nat, k: nat, e: seq<Token>)
    ensures
      var n := |base|;
      var t := AddSize(base + [Token(kind, start, -1, 0)], n, k) + e;
      t[n := t[n].(end := end)] == base + ([Token(kind, start, end, k)] + e)
  {
  }

  /** From an open bracket to its closed container, given how its content runs. */
  lemma ContainerReaches(v: Json, js: string, limit: nat, st: State, w: string, kind: Type, inner: string, k: nat, e: seq<Token>, s: int)
    requires kind == Object || kind == Array
    requires !v.JString? && !v.JPrimitive? && ValueHere(v, js, limit, st) && AllSpace(w) && AllClosed(e)
    requires Print(v) == (if kind == Object then "{" else "[") + w + inner + (if kind == Object then "}" else "]")
    requires Toks(v, st.pos) == [Token(kind, st.pos, st.pos + |Print(v)|, k)] + e
    requires
      Reaches(js, limit, Opened(st, w, kind),
              State(st.pos + 1 + |w| + |inner|, AddSize(Opened(st, w, kind).toks, |st.toks|, k) + e, s))
    ensures Reaches(js, limit, st, ValueState(v, st))
  {
    hide Step, Reaches, Run, Print, Toks;
    var n, base := |st.toks|, Bump(st.toks, st.super);
    var b := Opened(st, w, kind);
    var a := b.(pos := st.pos + 1);
    var c := State(b.pos + |inner|, AddSize(b.toks, n, k) + e, s);
    OpenReaches(v, js, limit, st, w, kind, inner);
    ReachesSpaces(js, limit, a, w);
    ReachesTrans(js, limit, st, a, b);
    ReachesTrans(js, limit, st, b, c);
    CloseReaches(js, limit, c, n, kind);
    CloseShape(base, kind, st.pos, st.pos + |Print(v)|, k, e);
    LastOpenSame(st.toks, c.toks, n);
    ReachesTrans(js, limit, st, c, ValueState(v, st));
  }

  lemma OpenReaches(v: Json, js: string, limit: nat, st: State, w: string, kind: Type, inner: string)
    requires kind == Object || kind == Array
    requires ValueHere(v, js, limit, st) && NumToks(v) > 0
    requires Print(v) == (if kind == Object then "{" else "[") + w + inner + (if kind == Object then "}" else "]")
    ensures Reaches(js, limit, st, State(st.pos + 1, Bump(st.toks, st.super) + [Token(kind, st.pos, -1, 0)], |st.toks|))
    ensures At(js, st.pos + 1, w)
    ensures !AtEnd(js, st.pos + 1 + |w| + |inner|)
    ensures js[st.pos + 1 + |w| + |inner|] == if kind == Object then '}' else ']'
  {
    var o, c := (if kind == Object then "{" else "["), (if kind == Object then "}" else "]");
    AtChar(js, st.pos, Print(v), 0);
    AtChar(js, st.pos, Print(v), |Print(v)| - 1);
    AtSplit(js, st.pos, o + w + inner, c);
    AtSplit(js, st.pos, o + w, inner);
    AtSplit(js, st.pos, o, w);
    ReachesStep(js, limit, st);
  }

  lemma {:induction false} ArrayReaches(v: Json, js: string, limit: nat, st: State)
    requires v.JArray? && Ok(v) && ValueHere(v, js, limit, st)
    ensures Reaches(js, limit, st, ValueState(v, st))
    decreases v.es, 2
  {
    ArrayText(v, st.pos);
    ArrayOpened(v, js, limit, st);
    var b := Opened(st, v.w, Array);
    ElemsShape(v.es, b.pos);
    hide Step, Reaches, Run, Print, PrintElems, Toks, ElemsToks, At, Inside, ElemsHere, ValueHere, AllClosed, IsOpen;
    ElemsReaches(v.es, js, limit, b, |st.toks|);
    ContainerReaches(v, js, limit, st, v.w, Array, PrintElems(v.es), ElemCount(v.es), ElemsToks(v.es, b.pos), |st.toks|);
  }

  /** Just inside the bracket, past the white space. */
  function Opened(st: State, w: string, kind: Type): (r: State) {
    State(st.pos + 1 + |w|, Bump(st.toks, st.super) + [Token(kind, st.pos, -1, 0)], |st.toks|)
  }

  lemma OpenedInside(st: State, w: string, kind: Type)
    requires kind == Array || kind == Object
    ensures Inside(Opened(st, w, kind).toks, |st.toks|, kind)
  {
  }

  lemma ArrayText(v: Json, pos: nat)
    requires v.JArray?
    ensures Print(v) == "[" + v.w + PrintElems(v.es) + "]" && NumToks(v) == 1 + ElemsNum(v.es)
    ensures Toks(v, pos) == [Token(Array, pos, pos + |Print(v)|, ElemCount(v.es))] + ElemsToks(v.es, pos + 1 + |v.w|)
  {
    hide PrintElems, ElemsToks, ElemCount, ElemsNum;
  }

  lemma ArrayOpened(v: Json, js: string, limit: nat, st: State)
    requires v.JArray? && Ok(v) && ValueHere(v, js, limit, st)
    ensures ElemsHere(v.es, js, limit, Opened(st, v.w, Array), |st.toks|)
  {
    ArrayText(v, st.pos);
    OpenedInside(st, v.w, Array);
    hide Inside, IsOpen, Bump;
    hide Step, Reaches, Run, PrintElems, ElemsToks, Print, Toks, At, NumToks, ElemsNum, ElemCount, Ok;
    OpenReaches(v, js, limit, st, v.w, Array, PrintElems(v.es));
    InnerAt(js, st.pos, "[", v.w, PrintElems(v.es), "]");
    OpenedSize(st, v.w, Array);
  }

  lemma OpenedSize(st: State, w: string, kind: Type)
    ensures
      var b := Opened(st, w, kind);
      b.pos == st.pos + 1 + |w| && |b.toks| == |st.toks| + 1 && b.super == |st.toks|
  {
  }

  lemma InnerAt(js: string, pos: nat, o: string, w: string, inner: string, c: string)
    requires |o| == 1 && At(js, pos, o + w + inner + c)
    ensures At(js, pos + 1 + |w|, inner)
  {
    AtSplit(js, pos, o + w + inner, c);
    AtSplit(js, pos, o + w, inner);
  }

  /** The text of the elements, and what follows it. */
  ghost predicate ElemsHere(es: Elems, js: string, limit: nat, st: State, n: nat) {
    At(js, st.pos, PrintElems(es)) && Inside(st.toks, n, Array) && st.super == n
    && !AtEnd(js, st.pos + |PrintElems(es)|) && js[st.pos + |PrintElems(es)|] == ']'
    && |st.toks| + ElemsNum(es) <= limit
  }

  /** White space, something, white space. */
  lemma SpacedReaches(js: string, limit: nat, st: State, pre: string, u: State, post: string)
    requires At(js, st.pos, pre) && AllSpace(pre) && At(js, u.pos, post) && AllSpace(post)
    requires Reaches(js, limit, State(st.pos + |pre|, st.toks, st.super), u)
    ensures Reaches(js, limit, st, State(u.pos + |post|, u.toks, u.super))
  {
    hide Reaches, At, AllSpace;
    ReachesSpaces(js, limit, st, pre);
    ReachesTrans(js, limit, st, State(st.pos + |pre|, st.toks, st.super), u);
    ReachesSpaces(js, limit, u, post);
    ReachesTrans(js, limit, st, u, State(u.pos + |post|, u.toks, u.super));
  }

  /** Where the pieces of one element stand; whatever follows its value is a delimiter. */
  lemma PiecesAt(js: string, pos: nat, pre: string, head: string, val: string, post: string, tail: string, close: char)
    requires At(js, pos, pre + head + val + post + tail) && AllSpace(post)
    requires var q := pos + |pre + head + val + post + tail|; !AtEnd(js, q) && js[q] == close && IsDelimiter(close)
    requires tail != "" ==> tail[0] == ','
    ensures At(js, pos, pre) && At(js, pos + |pre|, head) && At(js, pos + |pre| + |head|, val)
    ensures
      var r := pos + |pre| + |head| + |val|;
      At(js, r, post) && At(js, r + |post|, tail) && Follows(js, r)
      && (tail != "" ==> !AtEnd(js, r + |post|) && js[r + |post|] == ',')
  {
    hide At;
    AtSplit(js, pos, pre + head + val + post, tail);
    AtSplit(js, pos, pre + head + val, post);
    AtSplit(js, pos, pre + head, val);
    AtSplit(js, pos, pre, head);
    var r := pos + |pre| + |head| + |val|;
    if tail != "" { HeadAt(js, r + |post|, tail); }
    if post != "" { HeadAt(js, r, post); }
  }

  lemma HeadAt(js: string, pos: nat, text: string)
    requires At(js, pos, text) && text != ""
    ensures pos < |js| && js[pos] == text[0]
  {
    AtChar(js, pos, text, 0);
  }

  /** The state after all the elements. */
  function ElemsState(es: Elems, st: State, n: nat): State
    requires n < |st.toks|
  {
    State(st.pos + |PrintElems(es)|, AddSize(st.toks, n, ElemCount(es)) + ElemsToks(es, st.pos), n)
  }

  function PastComma(b: State, n: nat): State {
    State(b.pos + 1, b.toks, n)
  }

  lemma {:induction false} ElemsReaches(es: Elems, js: string, limit: nat, st: State, n: nat)
    requires n < |st.toks| && ElemsOk(es) && ElemsHere(es, js, limit, st, n)
    ensures Reaches(js, limit, st, ElemsState(es, st, n))
    decreases es, 1
  {
    if es.ENil? {
      assert AddSize(st.toks, n, 0) + [] == st.toks;
      ReachesSelf(js, limit, st);
    } else {
      OneElem(es, js, limit, st, n);
      ElemsTail(es, js, limit, st, n);
    }
  }

  /** The state after white space, the first element and white space. */
  function ElemState(es: Elems, st: State, n: nat): State
    requires es.ECons? && n < |st.toks|
  {
    var p := st.pos + |es.pre|;
    State(p + |Print(es.v)| + |es.post|, AddSize(st.toks, n, 1) + Toks(es.v, p), n)
  }

  /** What stands where the first element ends. */
  ghost predicate ElemThen(es: Elems, js: string, q: nat)
    requires es.ECons?
  {
    es.rest.ECons? ==> At(js, q, "," + PrintElems(es.rest)) && !AtEnd(js, q) && js[q] == ','
  }

  ghost predicate ElemDone(es: Elems, js: string, limit: nat, st: State, n: nat) {
    && es.ECons? && n < |st.toks|
    && Reaches(js, limit, st, ElemState(es, st, n))
    && Inside(ElemState(es, st, n).toks, n, Array) && |ElemState(es, st, n).toks| == |st.toks| + NumToks(es.v)
    && ElemThen(es, js, ElemState(es, st, n).pos)
  }

  /** White space, value, white space. */
  lemma {:induction false} OneElem(es: Elems, js: string, limit: nat, st: State, n: nat)
    requires es.ECons? && ElemsOk(es) && ElemsHere(es, js, limit, st, n)
    ensures ElemDone(es, js, limit, st, n)
    decreases es, 0
  {
    ElemPieces(es, js, limit, st, n);
    hide Step, Reaches, Print, At, PrintElems, Toks, Run, ElemsToks, ElemThen, ElemDone, ElemState, ValueHere;
    hide AllSpace, Inside, Ok, ElemsHere, Follows;
    var a := State(st.pos + |es.pre|, st.toks, st.super);
    var u := ValueState(es.v, a);
    ValueReaches(es.v, js, limit, a);
    AfterElem(es.v, a, n);
    SpacedReaches(js, limit, st, es.pre, u, es.post);
    ElemIntro(es, js, limit, st, n, u);
  }

  lemma ElemIntro(es: Elems, js: string, limit: nat, st: State, n: nat, u: State)
    requires es.ECons? && n < |st.toks| && u.pos == st.pos + |es.pre| + |Print(es.v)| && u.super == n
    requires u.toks == AddSize(st.toks, n, 1) + Toks(es.v, st.pos + |es.pre|)
    requires Inside(u.toks, n, Array) && |u.toks| == |st.toks| + NumToks(es.v)
    requires Reaches(js, limit, st, State(u.pos + |es.post|, u.toks, u.super)) && ElemThen(es, js, u.pos + |es.post|)
    ensures ElemDone(es, js, limit, st, n)
  {
    hide Reaches, Inside, ElemThen, Print, Toks, AddSize;
  }

  lemma ElemPieces(es: Elems, js: string, limit: nat, st: State, n: nat)
    requires es.ECons? && ElemsOk(es) && ElemsHere(es, js, limit, st, n)
    ensures
      var p := st.pos + |es.pre|;
      var q := p + |Print(es.v)|;
      At(js, st.pos, es.pre) && At(js, q, es.post) && ElemThen(es, js, q + |es.post|)
      && ValueHere(es.v, js, limit, State(p, st.toks, st.super))
    ensures Inside(st.toks, n, Array) && st.super == n < |st.toks|
  {
    hide Print, At;
    var tail := if es.rest.ENil? then "" else "," + PrintElems(es.rest);
    assert PrintElems(es) == es.pre + Print(es.v) + es.post + tail;
    assert es.pre + "" == es.pre;
    PiecesAt(js, st.pos, es.pre, "", Print(es.v), es.post, tail, ']');
  }

  /** After an element the array is again the innermost open container, and superior. */
  lemma AfterElem(v: Json, a: State, n: nat)
    requires Inside(a.toks, n, Array) && a.super == n
    ensures var b := ValueState(v, a);
      b.super == n && b.toks == AddSize(a.toks, n, 1) + Toks(v, a.pos) && Inside(b.toks, n, Array)
      && |b.toks| == |a.toks| + NumToks(v)
  {
    InsideScans(a.toks, n, Array);
    ToksShape(v, a.pos);
    InsideAppend(a.toks, n, Array, 1, Toks(v, a.pos));
  }

  /** A comma where the superior token already is a container. */
  lemma CommaReaches(js: string, limit: nat, b: State, n: nat, kind: Type)
    requires !AtEnd(js, b.pos) && js[b.pos] == ',' && Inside(b.toks, n, kind) && 0 <= b.super < |b.toks|
    requires b.super == n || !IsContainer(b.toks[b.super])
    ensures Reaches(js, limit, b, State(b.pos + 1, b.toks, n))
  {
    InsideScans(b.toks, n, kind);
    ReachesStep(js, limit, b);
  }

  lemma {:induction false} ElemsTail(es: Elems, js: string, limit: nat, st: State, n: nat)
    requires es.ECons? && ElemsOk(es) && n < |st.toks| && ElemsHere(es, js, limit, st, n) && ElemDone(es, js, limit, st, n)
    ensures Reaches(js, limit, st, ElemsState(es, st, n))
    decreases es, 0
  {
    if es.rest.ENil? {
      LastElem(es, js, limit, st, n);
    } else {
      RestHere(es, js, limit, st, n);
      assert ElemsOk(es.rest);
      hide Reaches, Print, PrintElems, ElemsToks, Toks, ElemsHere, ElemDone, AddSize, ElemsOk, ElemState, ElemsState;
      var c := PastComma(ElemState(es, st, n), n);
      ElemsReaches(es.rest, js, limit, c, n);
      ElemsJoin(es, st, n);
      ReachesTrans(js, limit, st, c, ElemsState(es.rest, c, n));
    }
  }

  lemma LastElem(es: Elems, js: string, limit: nat, st: State, n: nat)
    requires es.ECons? && es.rest.ENil? && ElemDone(es, js, limit, st, n)
    ensures Reaches(js, limit, st, ElemsState(es, st, n))
  {
    ElemsUnfold(es, st.pos);
    hide Reaches, Print, PrintElems, ElemsToks, Toks, Inside, AddSize;
    assert Toks(es.v, st.pos + |es.pre|) + [] == Toks(es.v, st.pos + |es.pre|);
  }

  /** The first element, the comma and the rest come to the whole. */
  lemma ElemsJoin(es: Elems, st: State, n: nat)
    requires es.ECons? && es.rest.ECons? && n < |st.toks|
    ensures n < |ElemState(es, st, n).toks|
    ensures ElemsState(es.rest, PastComma(ElemState(es, st, n), n), n) == ElemsState(es, st, n)
  {
    ElemsUnfold(es, st.pos);
    hide Print, PrintElems, ElemsToks, Toks;
    var p := st.pos + |es.pre|;
    var c := PastComma(ElemState(es, st, n), n);
    AddSizeTwice(st.toks, n, 1, ElemCount(es.rest), Toks(es.v, p), ElemsToks(es.rest, c.pos));
  }

  lemma ElemsUnfold(es: Elems, pos: nat)
    requires es.ECons?
    ensures
      var next := pos + |es.pre| + |Print(es.v)| + |es.post|;
      && pos + |PrintElems(es)| == next + (if es.rest.ENil? then 0 else 1 + |PrintElems(es.rest)|)
      && ElemsToks(es, pos) == Toks(es.v, pos + |es.pre|) + (if es.rest.ENil? then [] else ElemsToks(es.rest, next + 1))
      && ElemCount(es) == 1 + ElemCount(es.rest) && (es.rest.ENil? ==> ElemCount(es.rest) == 0)
  {
    hide Print, Toks;
  }

  /** Past the comma, the rest of the elements. */
  lemma RestHere(es: Elems, js: string, limit: nat, st: State, n: nat)
    requires es.ECons? && es.rest.ECons? && ElemsOk(es) && ElemsHere(es, js, limit, st, n) && ElemDone(es, js, limit, st, n)
    ensures n < |st.toks|
    ensures
      var c := PastComma(ElemState(es, st, n), n);
      Reaches(js, limit, st, c) && ElemsHere(es.rest, js, limit, c, n) && n < |c.toks|
  {
    hide Step, Reaches, Print, Run, At, Toks, IsOpen;
    var b := ElemState(es, st, n);
    CommaReaches(js, limit, b, n, Array);
    ReachesTrans(js, limit, st, b, State(b.pos + 1, b.toks, n));
    AtSplit(js, b.pos, ",", PrintElems(es.rest));
  }

  lemma {:induction false} ObjectReaches(v: Json, js: string, limit: nat, st: State)
    requires v.JObject? && Ok(v) && ValueHere(v, js, limit, st)
    ensures Reaches(js, limit, st, ValueState(v, st))
    decreases v.ms, 2
  {
    ObjectText(v, st.pos);
    ObjectOpened(v, js, limit, st);
    var b := Opened(st, v.w, Object);
    MembersShape(v.ms, b.pos);
    hide Step, Reaches, Run, Print, PrintMembers, Toks, MembersToks, At, Inside, MembersHere, ValueHere, AllClosed, IsOpen;
    var s := MembersReaches(v.ms, js, limit, b, |st.toks|);
    ContainerReaches(v, js, limit, st, v.w, Object, PrintMembers(v.ms), MemberCount(v.ms), MembersToks(v.ms, b.pos), s);
  }

  lemma ObjectText(v: Json, pos: nat)
    requires v.JObject?
    ensures Print(v) == "{" + v.w + PrintMembers(v.ms) + "}" && NumToks(v) == 1 + MembersNum(v.ms)
    ensures Toks(v, pos) == [Token(Object, pos, pos + |Print(v)|, MemberCount(v.ms))] + MembersToks(v.ms, pos + 1 + |v.w|)
  {
    hide PrintMembers, MembersToks, MemberCount, MembersNum;
  }

  lemma ObjectOpened(v: Json, js: string, limit: nat, st: State)
    requires v.JObject? && Ok(v) && ValueHere(v, js, limit, st)
    ensures MembersHere(v.ms, js, limit, Opened(st, v.w, Object), |st.toks|)
  {
    ObjectText(v, st.pos);
    OpenedInside(st, v.w, Object);
    hide Inside, IsOpen, Bump;
    hide Step, Reaches, Run, PrintMembers, MembersToks, Print, Toks, At, NumToks, MembersNum, MemberCount, Ok;
    OpenReaches(v, js, limit, st, v.w, Object, PrintMembers(v.ms));
    InnerAt(js, st.pos, "{", v.w, PrintMembers(v.ms), "}");
    OpenedSize(st, v.w, Object);
  }

  ghost predicate MembersHere(ms: Members, js: string, limit: nat, st: State, n: nat) {
    At(js, st.pos, PrintMembers(ms)) && Inside(st.toks, n, Object) && st.super == n
    && !AtEnd(js, st.pos + |PrintMembers(ms)|) && js[st.pos + |PrintMembers(ms)|] == '}'
    && |st.toks| + MembersNum(ms) <= limit
  }

  /** The state after a key and its colon: the key token is superior. */
  function KeyState(st: State, n: nat, key: string, w1: string, w2: string): (r: State)
    requires n < |st.toks|
  {
    State(st.pos + |PrintKey(key, w1, w2)|, AddSize(st.toks, n, 1) + [Token(String, st.pos + 1, st.pos + 1 + |key|, 0)], |st.toks|)
  }

  lemma KeyPieces(js: string, pos: nat, key: string, w1: string, w2: string)
    requires At(js, pos, PrintKey(key, w1, w2))
    ensures
      var q := pos + |key| + 2;
      At(js, pos, "\"" + key + "\"") && At(js, q, w1) && At(js, q + |w1|, ":") && At(js, q + |w1| + 1, w2)
  {
    hide At;
    AtSplit(js, pos, "\"" + key + "\"" + w1 + ":", w2);
    AtSplit(js, pos, "\"" + key + "\"" + w1, ":");
    AtSplit(js, pos, "\"" + key + "\"", w1);
  }

  /** A quoted string appends its token. */
  lemma StringReaches(js: string, limit: nat, st: State, s: string)
    requires StringOk(s) && At(js, st.pos, "\"" + s + "\"") && |st.toks| < limit
    ensures Reaches(js, limit, st,
      State(st.pos + |s| + 2, Bump(st.toks, st.super) + [Token(String, st.pos + 1, st.pos + 1 + |s|, 0)], st.super))
  {
    hide ScanString, At, StringOk, Run, Reaches, Step, Bump;
    QuotedAt(js, st.pos, s);
    StepAtQuote(js, limit, st, st.pos + 1 + |s|);
    ReachesStep(js, limit, st);
  }

  lemma StepAtQuote(js: string, limit: nat, st: State, end: nat)
    requires st.pos < |js| && js[st.pos] == '\"' && ScanString(js, st.pos + 1) == Closed(end) && |st.toks| < limit
    ensures !AtEnd(js, st.pos)
    ensures Step(js, limit, st) ==
      Next(State(end + 1, Bump(st.toks, st.super) + [Token(String, st.pos + 1, end, 0)], st.super), 1)
  {
    hide ScanString, ScanPrimitive, OpenStep, CloseStep, CommaStep, Bump;
  }

  lemma QuotedAt(js: string, pos: nat, s: string)
    requires StringOk(s) && At(js, pos, "\"" + s + "\"")
    ensures pos < |js| && js[pos] == '\"' && ScanString(js, pos + 1) == Closed(pos + 1 + |s|)
  {
    hide ScanString, StringOk;
    var t := "\"" + s + "\"";
    AtChar(js, pos, t, 0);
    QuoteAssoc(s);
    AtSplit(js, pos, "\"", s + "\"");
    ScanStringOk(js, pos + 1, s);
  }

  lemma QuoteAssoc(s: string)
    ensures "\"" + s + "\"" == "\"" + (s + "\"")
  {
  }

  lemma KeyReaches(js: string, limit: nat, st: State, n: nat, key: string, w1: string, w2: string)
    requires StringOk(key) && AllSpace(w1) && AllSpace(w2) && At(js, st.pos, PrintKey(key, w1, w2))
    requires n < |st.toks| < limit && st.super == n
    ensures Reaches(js, limit, st, KeyState(st, n, key, w1, w2))
  {
    hide Reaches, At, Run;
    var q := st.pos + |key| + 2;
    KeyPieces(js, st.pos, key, w1, w2);
    StringReaches(js, limit, st, key);
    var toks := AddSize(st.toks, n, 1) + [Token(String, st.pos + 1, st.pos + 1 + |key|, 0)];
    var a, b, c := State(q, toks, n), State(q + |w1|, toks, n), State(q + |w1| + 1, toks, |st.toks|);
    ReachesSpaces(js, limit, a, w1);
    ReachesTrans(js, limit, st, a, b);
    ColonReaches(js, limit, b);
    ReachesTrans(js, limit, st, b, c);
    ReachesSpaces(js, limit, c, w2);
    ReachesTrans(js, limit, st, c, KeyState(st, n, key, w1, w2));
  }

  lemma ColonReaches(js: string, limit: nat, b: State)
    requires At(js, b.pos, ":")
    ensures Reaches(js, limit, b, State(b.pos + 1, b.toks, |b.toks| - 1))
  {
    AtChar(js, b.pos, ":", 0);
    ReachesStep(js, limit, b);
  }

  /** After a member's value: the key counts one, the object is still the innermost open container. */
  lemma AfterMember(v: Json, st: State, n: nat, key: string, w1: string, w2: string)
    requires Inside(st.toks, n, Object)
    ensures
      var k := KeyState(st, n, key, w1, w2);
      var b := ValueState(v, k);
      var d := [Token(String, st.pos + 1, st.pos + 1 + |key|, 1)] + Toks(v, k.pos);
      b.toks == AddSize(st.toks, n, 1) + d && Inside(b.toks, n, Object) && |b.toks| == |st.toks| + 1 + NumToks(v)
      && 0 <= b.super < |b.toks| && (b.super == n || !IsContainer(b.toks[b.super]))
  {
    var k := KeyState(st, n, key, w1, w2);
    var d := [Token(String, st.pos + 1, st.pos + 1 + |key|, 1)] + Toks(v, k.pos);
    ToksShape(v, k.pos);
    assert AllClosed([Token(String, st.pos + 1, st.pos + 1 + |key|, 0)]);
    InsideAppend(st.toks, n, Object, 1, [Token(String, st.pos + 1, st.pos + 1 + |key|, 0)]);
    InsideScans(k.toks, n, Object);
    InsideAppend(st.toks, n, Object, 1, d);
    assert ValueState(v, k).toks == AddSize(st.toks, n, 1) + d;
  }

  /** The state after all the members, s being superior then. */
  function MembersState(ms: Members, st: State, n: nat, s: int): State
    requires n < |st.toks|
  {
    State(st.pos + |PrintMembers(ms)|, AddSize(st.toks, n, MemberCount(ms)) + MembersToks(ms, st.pos), s)
  }

  lemma {:induction false} MembersReaches(ms: Members, js: string, limit: nat, st: State, n: nat) returns (s: int)
    requires n < |st.toks| && MembersOk(ms) && MembersHere(ms, js, limit, st, n)
    ensures Reaches(js, limit, st, MembersState(ms, st, n, s))
    decreases ms, 1
  {
    if ms.MNil? {
      s := n;
      assert AddSize(st.toks, n, 0) + [] == st.toks;
      ReachesSelf(js, limit, st);
    } else {
      s := OneMember(ms, js, limit, st, n);
      s := MembersTail(ms, js, limit, st, n, s);
    }
  }

  /** The tokens of the first member, its key standing at p: the key, of size 1, and its value. */
  function PairToks(ms: Members, p: nat): seq<Token>
    requires ms.MCons?
  {
    [Token(String, p + 1, p + 1 + |ms.key|, 1)] + Toks(ms.v, p + |PrintKey(ms.key, ms.w1, ms.w2)|)
  }

  /** The state after white space, the first member and white space, s being superior then. */
  function MemberState(ms: Members, st: State, n: nat, s: int): State
    requires ms.MCons? && n < |st.toks|
  {
    State(st.pos + |ms.pre| + |PrintKey(ms.key, ms.w1, ms.w2)| + |Print(ms.v)| + |ms.post|,
          AddSize(st.toks, n, 1) + PairToks(ms, st.pos + |ms.pre|), s)
  }

  ghost predicate MemberThen(ms: Members, js: string, q: nat)
    requires ms.MCons?
  {
    ms.rest.MCons? ==> At(js, q, "," + PrintMembers(ms.rest)) && !AtEnd(js, q) && js[q] == ','
  }

  ghost predicate MemberDone(ms: Members, js: string, limit: nat, st: State, n: nat, s: int) {
    && ms.MCons? && n < |st.toks|
    && Reaches(js, limit, st, MemberState(ms, st, n, s))
    && AfterPair(MemberState(ms, st, n, s), n) && |MemberState(ms, st, n, s).toks| == |st.toks| + 1 + NumToks(ms.v)
    && MemberThen(ms, js, MemberState(ms, st, n, s).pos)
  }

  /** The object is the innermost open container, and no other container is superior. */
  ghost predicate AfterPair(u: State, n: nat) {
    Inside(u.toks, n, Object) && 0 <= u.super < |u.toks| && (u.super == n || !IsContainer(u.toks[u.super]))
  }

  /** White space, key, colon, value, white space. */
  lemma {:induction false} OneMember(ms: Members, js: string, limit: nat, st: State, n: nat) returns (s: int)
    requires ms.MCons? && MembersOk(ms) && MembersHere(ms, js, limit, st, n)
    ensures MemberDone(ms, js, limit, st, n, s)
    decreases ms, 0
  {
    hide *;
    MemberPieces(ms, js, limit, st, n);
    var a := State(st.pos + |ms.pre|, st.toks, st.super);
    var u := KeyAndValue(ms, js, limit, a, n);
    s := u.super;
    SpacedReaches(js, limit, st, ms.pre, u, ms.post);
    MemberIntro(ms, js, limit, st, n, u);
  }

  lemma MemberStateIs(ms: Members, st: State, n: nat, u: State)
    requires ms.MCons? && n < |st.toks|
    requires u.pos == st.pos + |ms.pre| + |PrintKey(ms.key, ms.w1, ms.w2)| + |Print(ms.v)|
    requires u.toks == AddSize(st.toks, n, 1) + PairToks(ms, st.pos + |ms.pre|)
    ensures MemberState(ms, st, n, u.super) == State(u.pos + |ms.post|, u.toks, u.super)
  {
    hide Print, PrintKey, PairToks;
  }

  lemma MemberIntro(ms: Members, js: string, limit: nat, st: State, n: nat, u: State)
    requires ms.MCons? && n < |st.toks| && AfterPair(u, n) && |u.toks| == |st.toks| + 1 + NumToks(ms.v)
    requires u.pos == st.pos + |ms.pre| + |PrintKey(ms.key, ms.w1, ms.w2)| + |Print(ms.v)|
    requires u.toks == AddSize(st.toks, n, 1) + PairToks(ms, st.pos + |ms.pre|)
    requires
      var b := State(u.pos + |ms.post|, u.toks, u.super);
      Reaches(js, limit, st, b) && MemberThen(ms, js, b.pos)
    ensures MemberDone(ms, js, limit, st, n, u.super)
  {
    hide Reaches, MemberState, MemberThen, AfterPair, PairToks, Print, PrintKey;
    MemberStateIs(ms, st, n, u);
    PairInside(u, State(u.pos + |ms.post|, u.toks, u.super), n);
  }

  lemma PairInside(u: State, b: State, n: nat)
    requires AfterPair(u, n) && b.toks == u.toks && b.super == u.super
    ensures AfterPair(b, n)
  {
  }

  lemma {:induction false} KeyAndValue(ms: Members, js: string, limit: nat, a: State, n: nat) returns (u: State)
    requires ms.MCons? && MembersOk(ms) && Inside(a.toks, n, Object) && a.super == n < |a.toks| < limit
    requires At(js, a.pos, PrintKey(ms.key, ms.w1, ms.w2))
    requires ValueHere(ms.v, js, limit, KeyState(a, n, ms.key, ms.w1, ms.w2))
    ensures Reaches(js, limit, a, u) && AfterPair(u, n) && |u.toks| == |a.toks| + 1 + NumToks(ms.v)
    ensures u.pos == a.pos + |PrintKey(ms.key, ms.w1, ms.w2)| + |Print(ms.v)|
    ensures u.toks == AddSize(a.toks, n, 1) + PairToks(ms, a.pos)
    decreases ms.v, 2
  {
    hide Step, Reaches, Print, At, PrintKey, Toks, Run, StringOk, ValueHere;
    var k := KeyState(a, n, ms.key, ms.w1, ms.w2);
    KeyReaches(js, limit, a, n, ms.key, ms.w1, ms.w2);
    ValueReaches(ms.v, js, limit, k);
    AfterMember(ms.v, a, n, ms.key, ms.w1, ms.w2);
    u := ValueState(ms.v, k);
    ReachesTrans(js, limit, a, k, u);
  }

  lemma MemberPieces(ms: Members, js: string, limit: nat, st: State, n: nat)
    requires ms.MCons? && MembersOk(ms) && MembersHere(ms, js, limit, st, n)
    ensures Inside(st.toks, n, Object) && st.super == n < |st.toks| < limit && AllSpace(ms.pre) && AllSpace(ms.post)
    ensures
      var p := st.pos + |ms.pre|;
      var r := p + |PrintKey(ms.key, ms.w1, ms.w2)| + |Print(ms.v)|;
      At(js, st.pos, ms.pre) && At(js, p, PrintKey(ms.key, ms.w1, ms.w2)) && At(js, r, ms.post)
      && ValueHere(ms.v, js, limit, KeyState(State(p, st.toks, st.super), n, ms.key, ms.w1, ms.w2))
      && MemberThen(ms, js, r + |ms.post|)
  {
    hide Print, At, PrintKey;
    var tail := if ms.rest.MNil? then "" else "," + PrintMembers(ms.rest);
    var head := PrintKey(ms.key, ms.w1, ms.w2);
    assert PrintMembers(ms) == ms.pre + head + Print(ms.v) + ms.post + tail;
    PiecesAt(js, st.pos, ms.pre, head, Print(ms.v), ms.post, tail, '}');
  }

  /** Past the comma, the rest of the members. */
  lemma RestMembersHere(ms: Members, js: string, limit: nat, st: State, n: nat, s: int)
    requires ms.MCons? && ms.rest.MCons? && MembersOk(ms) && MembersHere(ms, js, limit, st, n)
    requires MemberDone(ms, js, limit, st, n, s)
    ensures n < |st.toks|
    ensures
      var c := PastComma(MemberState(ms, st, n, s), n);
      Reaches(js, limit, st, c) && MembersHere(ms.rest, js, limit, c, n) && n < |c.toks|
  {
    hide Step, Reaches, Print, Run, At, Toks, IsOpen, PrintKey, PairToks;
    var b := MemberState(ms, st, n, s);
    CommaReaches(js, limit, b, n, Object);
    ReachesTrans(js, limit, st, b, State(b.pos + 1, b.toks, n));
    AtSplit(js, b.pos, ",", PrintMembers(ms.rest));
  }

  lemma {:induction false} MembersTail(ms: Members, js: string, limit: nat, st: State, n: nat, s0: int) returns (s: int)
    requires ms.MCons? && MembersOk(ms) && n < |st.toks|
    requires MembersHere(ms, js, limit, st, n) && MemberDone(ms, js, limit, st, n, s0)
    ensures Reaches(js, limit, st, MembersState(ms, st, n, s))
    decreases ms, 0
  {
    if ms.rest.MNil? {
      s := s0;
      LastMember(ms, js, limit, st, n, s0);
    } else {
      RestMembersHere(ms, js, limit, st, n, s0);
      assert MembersOk(ms.rest);
      hide Reaches, Print, PrintMembers, MembersToks, Toks, MembersHere, MemberDone, AddSize, MembersOk, MemberState, MembersState;
      var c := PastComma(MemberState(ms, st, n, s0), n);
      s := MembersReaches(ms.rest, js, limit, c, n);
      MembersJoin(ms, st, n, s0, s);
      ReachesTrans(js, limit, st, c, MembersState(ms.rest, c, n, s));
    }
  }

  lemma LastMember(ms: Members, js: string, limit: nat, st: State, n: nat, s: int)
    requires ms.MCons? && ms.rest.MNil? && MemberDone(ms, js, limit, st, n, s)
    ensures Reaches(js, limit, st, MembersState(ms, st, n, s))
  {
    MembersUnfold(ms, st.pos);
    hide Reaches, Print, PrintKey, PrintMembers, MembersToks, PairToks, AfterPair, AddSize;
    assert PairToks(ms, st.pos + |ms.pre|) + [] == PairToks(ms, st.pos + |ms.pre|);
  }

  lemma MembersJoin(ms: Members, st: State, n: nat, s0: int, s: int)
    requires ms.MCons? && ms.rest.MCons? && n < |st.toks|
    ensures n < |MemberState(ms, st, n, s0).toks|
    ensures MembersState(ms.rest, PastComma(MemberState(ms, st, n, s0), n), n, s) == MembersState(ms, st, n, s)
  {
    MembersUnfold(ms, st.pos);
    hide Print, PrintKey, PrintMembers, MembersToks, PairToks;
    var c := PastComma(MemberState(ms, st, n, s0), n);
    AddSizeTwice(st.toks, n, 1, MemberCount(ms.rest), PairToks(ms, st.pos + |ms.pre|), MembersToks(ms.rest, c.pos));
  }

  lemma MembersUnfold(ms: Members, pos: nat)
    requires ms.MCons?
    ensures
      var p := pos + |ms.pre|;
      var next := p + |PrintKey(ms.key, ms.w1, ms.w2)| + |Print(ms.v)| + |ms.post|;
      && pos + |PrintMembers(ms)| == next + (if ms.rest.MNil? then 0 else 1 + |PrintMembers(ms.rest)|)
      && MembersToks(ms, pos) == PairToks(ms, p) + (if ms.rest.MNil? then [] else MembersToks(ms.rest, next + 1))
      && MemberCount(ms) == 1 + MemberCount(ms.rest) && (ms.rest.MNil? ==> MemberCount(ms.rest) == 0)
  {
    hide Print, Toks, PrintKey;
  }

  // ---------- whole texts ----------

  /** A printed tree, white space around it, enough tokens: exactly its preorder tokens come out. */
  lemma TreeParses(v: Json, w1: string, w2: string, limit: nat)
    requires Ok(v) && AllSpace(w1) && AllSpace(w2) && NumToks(v) <= limit
    ensures
      var js := w1 + Print(v) + w2;
      Run(js, limit, FRESH, 0).Done? && Run(js, limit, FRESH, 0).count == NumToks(v)
      && Run(js, limit, FRESH, 0).st.toks == Toks(v, |w1|)
  {
    var js := w1 + Print(v) + w2;
    RootPieces(js, v, w1, w2);
    ToksShape(v, |w1|);
    var a := State(|w1|, [], -1);
    var b := ValueState(v, a);
    var c := b.(pos := |js|);
    assert b.toks == Toks(v, |w1|);
    RootReaches(js, v, w1, w2, limit);
    assert Run(js, limit, FRESH, 0) == Run(js, limit, c, |c.toks|);
  }

  lemma RootPieces(js: string, v: Json, w1: string, w2: string)
    requires js == w1 + Print(v) + w2 && AllSpace(w2)
    ensures At(js, 0, w1) && At(js, |w1|, Print(v)) && At(js, |w1| + |Print(v)|, w2) && Follows(js, |w1| + |Print(v)|)
  {
    hide Print;
    assert js == js[0..|js|];
    AtSplit(js, 0, w1 + Print(v), w2);
    AtSplit(js, 0, w1, Print(v));
    if w2 != "" { HeadAt(js, |w1| + |Print(v)|, w2); }
  }

  lemma RootReaches(js: string, v: Json, w1: string, w2: string, limit: nat)
    requires js == w1 + Print(v) + w2 && Ok(v) && AllSpace(w1) && AllSpace(w2) && NumToks(v) <= limit
    ensures Reaches(js, limit, FRESH, ValueState(v, State(|w1|, [], -1)).(pos := |js|))
  {
    RootPieces(js, v, w1, w2);
    hide Step, Print, Reaches, Run, At, Toks;
    var a := State(|w1|, [], -1);
    var b := ValueState(v, a);
    ReachesSpaces(js, limit, FRESH, w1);
    ValueReaches(v, js, limit, a);
    ReachesTrans(js, limit, FRESH, a, b);
    ReachesSpaces(js, limit, b, w2);
    ReachesTrans(js, limit, FRESH, b, b.(pos := |js|));
  }
}
