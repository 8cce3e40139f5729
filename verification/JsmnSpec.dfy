/** The token parser as a function of the text, the parser fields and the tokens allocated so far (jsmn.c). */
module JsmnSpec {

  datatype Type = Primitive | Object | Array | String

  /** jsmntok_t */
  datatype Token = Token(kind: Type, start: int, end: int, size: int)

  datatype Error = NoMem | Inval | Part

  /** Parser fields, with the allocated prefix of the token array: toknext is its length. */
  datatype State = State(pos: nat, toks: seq<Token>, super: int)

  datatype Outcome = Done(count: nat, st: State) | Stop(error: Error, st: State)

  predicate AtEnd(js: string, i: nat) {
    i >= |js| || js[i] == '\0'
  }

  // ---------- strings ----------

  datatype Scan = Closed(at: nat) | BadScan(error: Error)

  predicate IsHex(c: char) {
    '0' <= c <= '9' || 'A' <= c <= 'F' || 'a' <= c <= 'f'
  }

  predicate IsEscape(c: char) {
    c == '\"' || c == '/' || c == '\\' || c == 'b' || c == 'f' || c == 'r' || c == 'n' || c == 't'
  }

  /** Up to n hex digits from i: the index after them, or nothing when another character comes first. */
  function HexRun(js: string, i: nat, n: nat): (r: Scan)
    ensures r.Closed? ==> i <= r.at <= i + n && (i <= |js| ==> r.at <= |js|)
    ensures r.BadScan? ==> r.error == Inval
    decreases n
  {
    if n == 0 || AtEnd(js, i) then Closed(i)
    else if !IsHex(js[i]) then BadScan(Inval)
    else HexRun(js, i + 1, n - 1)
  }

  /** From just after the opening quote to the closing one. */
  function ScanString(js: string, i: nat): (r: Scan)
    ensures r.Closed? ==> i <= r.at < |js| && js[r.at] == '\"'
    ensures r.BadScan? ==> r.error != NoMem
    decreases |js| - i
  {
    if AtEnd(js, i) then BadScan(Part)
    else if js[i] == '\"' then Closed(i)
    else if js[i] == '\\' && i + 1 < |js| then
      if IsEscape(js[i + 1]) then ScanString(js, i + 2)
      else if js[i + 1] == 'u' then
        var h := HexRun(js, i + 2, 4);
        if h.Closed? then ScanString(js, h.at) else h
      else BadScan(Inval)
    else ScanString(js, i + 1)
  }

  // ---------- primitives ----------

  predicate IsDelimiter(c: char) {
    c == ':' || c == '\t' || c == '\r' || c == '\n' || c == ' ' || c == ',' || c == ']' || c == '}'
  }

  /** From the first character to the delimiter that ends the primitive. */
  function ScanPrimitive(js: string, i: nat): (r: Scan)
    ensures r.Closed? ==> i <= r.at && (i <= |js| ==> r.at <= |js|)
    ensures r.Closed? && !AtEnd(js, i) && !IsDelimiter(js[i]) ==> i < r.at
    ensures r.BadScan? ==> r.error == Inval
    decreases |js| - i
  {
    if AtEnd(js, i) || IsDelimiter(js[i]) then Closed(i)
    else if js[i] < ' ' || js[i] >= 127 as char then BadScan(Inval)
    else ScanPrimitive(js, i + 1)
  }

  // ---------- containers ----------

  predicate IsOpen(t: Token) {
    t.start != -1 && t.end == -1
  }

  predicate IsContainer(t: Token) {
    t.kind == Array || t.kind == Object
  }

  /** The innermost open token below n, or -1. */
  function LastOpen(toks: seq<Token>, n: nat): (i: int)
    requires n <= |toks|
    ensures -1 <= i < n && (i >= 0 ==> IsOpen(toks[i])) && forall k :: i < k < n ==> !IsOpen(toks[k])
  {
    if n == 0 then -1 else if IsOpen(toks[n - 1]) then n - 1 else LastOpen(toks, n - 1)
  }

  /** The innermost open container below n, or -1. */
  function LastOpenContainer(toks: seq<Token>, n: nat): (i: int)
    requires n <= |toks|
    ensures -1 <= i < n && (i >= 0 ==> IsOpen(toks[i]) && IsContainer(toks[i]))
    ensures forall k :: i < k < n ==> !(IsOpen(toks[k]) && IsContainer(toks[k]))
  {
    if n == 0 then -1
    else if IsContainer(toks[n - 1]) && IsOpen(toks[n - 1]) then n - 1
    else LastOpenContainer(toks, n - 1)
  }

  /** tokens[toksuper].size++ when there is a superior token. */
  function Bump(toks: seq<Token>, s: int): (r: seq<Token>)
    ensures |r| == |toks|
  {
    if 0 <= s < |toks| then toks[s := toks[s].(size := toks[s].size + 1)] else toks
  }

  // ---------- one character ----------

  datatype StepResult = Next(st: State, added: nat) | Err(error: Error)

  /** The token appended and counted in its superior; refused when the array is full. */
  function Append(st: State, limit: nat, t: Token, pos: nat): (r: StepResult)
  {
    if |st.toks| >= limit then Err(NoMem)
    else Next(State(pos, Bump(st.toks, st.super) + [t], st.super), 1)
  }

  function OpenStep(st: State, limit: nat, kind: Type): (r: StepResult) {
    if |st.toks| >= limit then Err(NoMem)
    else Next(State(st.pos + 1, Bump(st.toks, st.super) + [Token(kind, st.pos, -1, 0)], |st.toks|), 1)
  }

  function CloseStep(st: State, kind: Type): (r: StepResult) {
    var i := LastOpen(st.toks, |st.toks|);
    if i == -1 || st.toks[i].kind != kind then Err(Inval)
    else Next(State(st.pos + 1, st.toks[i := st.toks[i].(end := st.pos + 1)], LastOpen(st.toks, i)), 0)
  }

  function CommaStep(st: State): (r: StepResult) {
    var i := LastOpenContainer(st.toks, |st.toks|);
    if 0 <= st.super < |st.toks| && !IsContainer(st.toks[st.super]) && i != -1 then Next(State(st.pos + 1, st.toks, i), 0)
    else Next(st.(pos := st.pos + 1), 0)
  }

  predicate IsSpace(c: char) {
    c == '\t' || c == '\r' || c == '\n' || c == ' '
  }

  function Step(js: string, limit: nat, st: State): (r: StepResult)
    requires !AtEnd(js, st.pos)
    ensures r.Next? ==> st.pos < r.st.pos <= |js| && |r.st.toks| == |st.toks| + r.added && r.added <= 1
    ensures r == Err(NoMem) ==> |st.toks| >= limit
  {
    var c := js[st.pos];
    if c == '{' then OpenStep(st, limit, Object)
    else if c == '[' then OpenStep(st, limit, Array)
    else if c == '}' then CloseStep(st, Object)
    else if c == ']' then CloseStep(st, Array)
    else if c == '\"' then
      var q := ScanString(js, st.pos + 1);
      if q.BadScan? then Err(q.error) else Append(st, limit, Token(String, st.pos + 1, q.at, 0), q.at + 1)
    else if IsSpace(c) then Next(st.(pos := st.pos + 1), 0)
    else if c == ':' then Next(State(st.pos + 1, st.toks, |st.toks| - 1), 0)
    else if c == ',' then CommaStep(st)
    else
      var q := ScanPrimitive(js, st.pos);
      if q.BadScan? then Err(q.error) else Append(st, limit, Token(Primitive, st.pos, q.at, 0), q.at)
  }

  // ---------- whole runs ----------

  /** jsmn_parse from a given state; on an error the parser stays at the offending character. */
  function Run(js: string, limit: nat, st: State, count: nat): (r: Outcome)
    ensures r.Stop? && r.error == NoMem ==> |r.st.toks| >= limit
    decreases |js| - st.pos
  {
    if AtEnd(js, st.pos) then
      if LastOpen(st.toks, |st.toks|) != -1 then Stop(Part, st) else Done(count, st)
    else
      var s := Step(js, limit, st);
      if s.Err? then Stop(s.error, st) else Run(js, limit, s.st, count + s.added)
  }

  const FRESH := State(0, [], -1)

  // ---------- counting without a token array ----------

  datatype DryResult = DryNext(pos: nat, added: nat) | DryErr(error: Error)

  function DryStep(js: string, pos: nat): (r: DryResult)
    requires !AtEnd(js, pos)
    ensures r.DryNext? ==> pos < r.pos <= |js| && r.added <= 1
  {
    var c := js[pos];
    if c == '{' || c == '[' then DryNext(pos + 1, 1)
    else if c == '\"' then
      var q := ScanString(js, pos + 1);
      if q.BadScan? then DryErr(q.error) else DryNext(q.at + 1, 1)
    else if c == '}' || c == ']' || IsSpace(c) || c == ':' || c == ',' then DryNext(pos + 1, 0)
    else
      var q := ScanPrimitive(js, pos);
      if q.BadScan? then DryErr(q.error) else DryNext(q.at, 1)
  }

  datatype DryOutcome = DryDone(count: nat) | DryStop(error: Error)

  function DryRun(js: string, pos: nat, count: nat): (r: DryOutcome)
    ensures r.DryDone? ==> r.count >= count
    decreases |js| - pos
  {
    if AtEnd(js, pos) then DryDone(count)
    else
      var s := DryStep(js, pos);
      if s.DryErr? then DryStop(s.error) else DryRun(js, s.pos, count + s.added)
  }
}
