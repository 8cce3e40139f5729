/** The in-place token parser (jsmn.c, default build: neither JSMN_STRICT nor JSMN_PARENT_LINKS). */
module Jsmn {
  import opened JsmnSpec

  datatype Result = Count(n: nat) | Failed(error: Error)

  /** What a helper returns: 0 or an error. */
  datatype Status = Fine | Bad(error: Error)

  class Parser {
    var pos: nat
    var toknext: nat
    var toksuper: int

    constructor ()
      ensures pos == 0 && toknext == 0 && toksuper == -1
    {
      pos, toknext, toksuper := 0, 0, -1;
    }

    /** The fields and the allocated tokens, as the specification sees them. */
    ghost function Abs(tokens: array<Token>): State
      reads this, tokens
      requires toknext <= tokens.Length
    {
      State(pos, tokens[..toknext], toksuper)
    }

    /** The array can be used with this parser; a NULL array only with a fresh one. */
    ghost predicate Fits(tokens: array?<Token>, num: nat)
      reads this
    {
      if tokens == null then toknext == 0
      else num <= tokens.Length && toknext <= tokens.Length && -1 <= toksuper < toknext
    }

    method AllocToken(tokens: array<Token>, num: nat) returns (i: int)
      requires num <= tokens.Length && toknext <= tokens.Length
      modifies this`toknext, tokens
      ensures old(toknext) >= num ==> i == -1 && toknext == old(toknext) && tokens[..] == old(tokens[..])
      ensures old(toknext) < num ==> i == old(toknext) && toknext == i + 1
      ensures old(toknext) < num ==> tokens[..] == old(tokens[..])[i := Token(old(tokens[toknext].kind), -1, -1, 0)]
    {
      if toknext >= num { return -1; }
      i := toknext;
      toknext := toknext + 1;
      tokens[i] := Token(tokens[i].kind, -1, -1, 0);
    }

    /** Allocate and fill one leaf token [start, end); refused when the array is full. */
    method StoreLeaf(tokens: array<Token>, num: nat, kind: Type, start: nat, end: nat) returns (ok: bool)
      requires num <= tokens.Length && toknext <= tokens.Length
      modifies this`toknext, tokens
      ensures ok <==> old(toknext) < num
      ensures !ok ==> toknext == old(toknext) && tokens[..] == old(tokens[..])
      ensures ok ==> toknext == old(toknext) + 1 && tokens[..] == old(tokens[..])[old(toknext) := Token(kind, start, end, 0)]
    {
      var i := AllocToken(tokens, num);
      if i == -1 { return false; }
      tokens[i] := Token(kind, start, end, 0);
      return true;
    }

    /** What one leaf does to the parser: nothing on an error, else one more token and the new position. */
    twostate predicate LeafEffect(tokens: array?<Token>, num: nat, r: Status, q: Scan, t: Token, next: int)
      reads this, tokens
    {
      if q.BadScan? then r == Bad(q.error) && Untouched(tokens)
      else if tokens == null then r == Fine && pos == next && toknext == old(toknext)
      else if old(toknext) >= num then r == Bad(NoMem) && Untouched(tokens)
      else
        r == Fine && pos == next && toknext == old(toknext) + 1
        && old(toknext) < tokens.Length && tokens[..] == old(tokens[..])[old(toknext) := t]
    }

    twostate predicate Untouched(tokens: array?<Token>)
      reads this, tokens
    {
      pos == old(pos) && toknext == old(toknext) && (tokens != null ==> tokens[..] == old(tokens[..]))
    }

    method ParsePrimitive(js: string, tokens: array?<Token>, num: nat) returns (r: Status)
      requires Fits(tokens, num) && !AtEnd(js, pos) && !IsDelimiter(js[pos])
      modifies this`pos, this`toknext, tokens
      ensures
        var q := ScanPrimitive(js, old(pos));
        LeafEffect(tokens, num, r, q, Token(Primitive, old(pos), if q.Closed? then q.at else 0, 0), if q.Closed? then q.at - 1 else 0)
    {
      var start := pos;
      ghost var q := ScanPrimitive(js, start);
      while !AtEnd(js, pos) && !IsDelimiter(js[pos])
        invariant start <= pos <= |js| && toknext == old(toknext) && (tokens != null ==> tokens[..] == old(tokens[..]))
        invariant q == ScanPrimitive(js, pos)
        decreases |js| - pos
      {
        if js[pos] < ' ' || js[pos] >= 127 as char {
          pos := start;
          return Bad(Inval);
        }
        pos := pos + 1;
      }
      assert pos > start;
      if tokens == null {
        pos := pos - 1;
        return Fine;
      }
      var ok := StoreLeaf(tokens, num, Primitive, start, pos);
      if !ok {
        pos := start;
        return Bad(NoMem);
      }
      pos := pos - 1;
      return Fine;
    }

    /** \uXXXX: four hex digits unless the text ends first. */
    method SkipHex(js: string) returns (ok: bool)
      requires pos <= |js|
      modifies this`pos
      ensures ok == HexRun(js, old(pos), 4).Closed?
      ensures ok ==> pos == HexRun(js, old(pos), 4).at
    {
      var i := 0;
      ghost var h := HexRun(js, pos, 4);
      while i < 4 && !AtEnd(js, pos)
        invariant 0 <= i <= 4 && pos <= |js| && h == HexRun(js, pos, 4 - i)
      {
        if !IsHex(js[pos]) { return false; }
        pos := pos + 1;
        i := i + 1;
      }
      return true;
    }

    /** An escape sequence; on success pos is one before what follows it. */
    method SkipEscape(js: string) returns (ok: bool)
      requires pos + 1 < |js| && js[pos] == '\\'
      modifies this`pos
      ensures ok ==> old(pos) < pos < |js| && (!AtEnd(js, old(pos)) ==> ScanString(js, old(pos)) == ScanString(js, pos + 1))
      ensures !ok ==> !AtEnd(js, old(pos)) ==> ScanString(js, old(pos)) == BadScan(Inval)
    {
      pos := pos + 1;
      if IsEscape(js[pos]) {
        return true;
      }
      if js[pos] != 'u' {
        return false;
      }
      pos := pos + 1;
      ok := SkipHex(js);
      if ok {
        pos := pos - 1;
      }
    }

    method ParseString(js: string, tokens: array?<Token>, num: nat) returns (r: Status)
      requires Fits(tokens, num) && !AtEnd(js, pos)
      modifies this`pos, this`toknext, tokens
      ensures
        var q := ScanString(js, old(pos) + 1);
        LeafEffect(tokens, num, r, q, Token(String, old(pos) + 1, if q.Closed? then q.at else 0, 0), if q.Closed? then q.at else 0)
    {
      var start := pos;
      ghost var q := ScanString(js, start + 1);
      pos := pos + 1;
      while !AtEnd(js, pos)
        invariant start < pos <= |js| && toknext == old(toknext) && (tokens != null ==> tokens[..] == old(tokens[..]))
        invariant q == ScanString(js, pos)
        decreases |js| - pos
      {
        var c := js[pos];
        if c == '\"' {
          if tokens == null { return Fine; }
          var ok := StoreLeaf(tokens, num, String, start + 1, pos);
          if !ok {
            pos := start;
            return Bad(NoMem);
          }
          return Fine;
        }
        if c == '\\' && pos + 1 < |js| {
          var ok := SkipEscape(js);
          if !ok {
            pos := start;
            return Bad(Inval);
          }
        }
        pos := pos + 1;
      }
      pos := start;
      return Bad(Part);
    }

    /** One more element for the superior token. */
    method BumpSuper(tokens: array<Token>)
      requires toksuper < tokens.Length
      modifies tokens
      ensures tokens[..] == if toksuper < 0 then old(tokens[..]) else Bump(old(tokens[..]), toksuper)
    {
      if toksuper >= 0 {
        tokens[toksuper] := tokens[toksuper].(size := tokens[toksuper].size + 1);
      }
    }

    /** What the specification makes of a leaf, with and without a token array. */
    static lemma LeafStep(js: string, limit: nat, st: State)
      requires !AtEnd(js, st.pos)
      requires js[st.pos] == '\"' || !(IsDelimiter(js[st.pos]) || js[st.pos] == '{' || js[st.pos] == '[')
      ensures
        var quoted := js[st.pos] == '\"';
        var q := if quoted then ScanString(js, st.pos + 1) else ScanPrimitive(js, st.pos);
        var next := if q.BadScan? then 0 else if quoted then q.at + 1 else q.at;
        && Step(js, limit, st) == (
             if q.BadScan? then Err(q.error)
             else Append(st, limit, if quoted then Token(String, st.pos + 1, q.at, 0) else Token(Primitive, st.pos, q.at, 0), next))
        && DryStep(js, st.pos) == if q.BadScan? then DryErr(q.error) else DryNext(next, 1)
    {
      hide ScanString, ScanPrimitive, Append;
    }

    /** A string or a primitive in the main loop; on success pos is one before the next character. */
    method Leaf(js: string, tokens: array?<Token>, num: nat) returns (r: Status)
      requires Fits(tokens, num) && !AtEnd(js, pos)
      requires js[pos] == '\"' || !(IsDelimiter(js[pos]) || js[pos] == '{' || js[pos] == '[')
      modifies this`pos, this`toknext, tokens
      ensures CharEffect(js, tokens, num, r)
    {
      ghost var st := if tokens == null then State(pos, [], -1) else Abs(tokens);
      hide Step, DryStep, ScanString, ScanPrimitive, Bump;
      LeafStep(js, num, st);
      if js[pos] == '\"' {
        r := ParseString(js, tokens, num);
      } else {
        r := ParsePrimitive(js, tokens, num);
      }
      if r.Bad? { return; }
      CountLeaf(tokens);
    }

    /** The new token counted in the superior one. */
    method CountLeaf(tokens: array?<Token>)
      requires tokens != null ==> 0 < toknext <= tokens.Length && -1 <= toksuper < toknext - 1
      modifies tokens
      ensures tokens != null ==>
        && tokens[..toknext] == Bump(old(tokens[..toknext - 1]), toksuper) + [old(tokens[toknext - 1])]
        && tokens[toknext..] == old(tokens[toknext..])
    {
      if toksuper != -1 && tokens != null {
        BumpSuper(tokens);
      }
    }

    /** What one pass of the main loop does before its pos++, against the specification of one character. */
    twostate predicate CharEffect(js: string, tokens: array?<Token>, num: nat, r: Status)
      requires old(Fits(tokens, num)) && !AtEnd(js, old(pos))
      reads this, tokens
    {
      if tokens == null then
        var d := DryStep(js, old(pos));
        Fits(tokens, num) && if d.DryErr? then r == Bad(d.error) else r == Fine && pos + 1 == d.pos
      else
        Fits(tokens, num) && tokens[toknext..] == old(tokens[..])[toknext..] &&
        var s := Step(js, num, old(Abs(tokens)));
        if s.Err? then r == Bad(s.error) && Abs(tokens) == old(Abs(tokens))
        else r == Fine && State(pos + 1, tokens[..toknext], toksuper) == s.st
    }

    /** '{' or '[' */
    method OpenBracket(js: string, tokens: array?<Token>, num: nat) returns (r: Status)
      requires Fits(tokens, num) && !AtEnd(js, pos) && (js[pos] == '{' || js[pos] == '[')
      modifies this`toknext, this`toksuper, tokens
      ensures CharEffect(js, tokens, num, r)
    {
      if tokens == null { return Fine; }
      ghost var old0, n := tokens[..], toknext;
      var i := AllocToken(tokens, num);
      if i == -1 { return Bad(NoMem); }
      if toksuper != -1 {
        BumpSuper(tokens);
      }
      tokens[i] := tokens[i].(kind := if js[pos] == '{' then Object else Array);
      tokens[i] := tokens[i].(start := pos);
      toksuper := toknext - 1;
      assert tokens[i] == Token(if js[pos] == '{' then Object else Array, pos, -1, 0);
      assert tokens[..toknext] == Bump(old0[..n], old(toksuper)) + [tokens[i]];
      return Fine;
    }

    /** The result of the two scans, as the specification has it. */
    static lemma CloseIs(toks: seq<Token>, pos: nat, super: int, kind: Type, i: nat, k: int)
      requires i < |toks| && i == LastOpen(toks, |toks|) && toks[i].kind == kind && k == LastOpen(toks[..i], i)
      ensures CloseStep(State(pos, toks, super), kind) == Next(State(pos + 1, toks[i := toks[i].(end := pos + 1)], k), 0)
    {
      LastOpenPrefix(toks, i, i);
    }

    /** The scan from the last token down to an open one. */
    method FindOpen(tokens: array<Token>, n: nat) returns (i: int)
      requires n <= tokens.Length
      ensures i == LastOpen(tokens[..n], n)
    {
      i := n - 1;
      LastOpenPrefix(tokens[..n], n, n);
      while i >= 0 && !IsOpen(tokens[i])
        invariant -1 <= i < n && LastOpen(tokens[..n], n) == LastOpen(tokens[..n], i + 1)
      {
        i := i - 1;
      }
    }

    static lemma BracketStep(js: string, limit: nat, st: State)
      requires !AtEnd(js, st.pos) && (js[st.pos] == '}' || js[st.pos] == ']')
      ensures Step(js, limit, st) == CloseStep(st, if js[st.pos] == '}' then Object else Array)
      ensures DryStep(js, st.pos) == DryNext(st.pos + 1, 0)
    {
      hide CloseStep;
    }

    /** '}' or ']' */
    method CloseBracket(js: string, tokens: array?<Token>, num: nat) returns (r: Status)
      requires Fits(tokens, num) && !AtEnd(js, pos) && (js[pos] == '}' || js[pos] == ']')
      modifies this`toksuper, tokens
      ensures CharEffect(js, tokens, num, r)
    {
      if tokens == null { return Fine; }
      hide Step, DryStep;
      BracketStep(js, num, Abs(tokens));
      var kind := if js[pos] == '}' then Object else Array;
      var i := FindOpen(tokens, toknext);
      if i == -1 || tokens[i].kind != kind { return Bad(Inval); }
      hide CloseStep, LastOpen, IsOpen;
      CloseToken(tokens, i);
      return Fine;
    }

    /** The end of the token found, and the scan on from it for the one around it. */
    method CloseToken(tokens: array<Token>, i: nat)
      requires i < toknext <= tokens.Length && i == LastOpen(tokens[..toknext], toknext)
      modifies this`toksuper, tokens
      ensures CloseStep(old(Abs(tokens)), old(tokens[i].kind)) == Next(State(pos + 1, tokens[..toknext], toksuper), 0)
      ensures -1 <= toksuper < i && tokens[toknext..] == old(tokens[toknext..])
    {
      hide LastOpen, CloseStep;
      ghost var old0 := tokens[..toknext];
      toksuper := -1;
      tokens[i] := tokens[i].(end := pos + 1);
      assert tokens[..toknext] == old0[i := old0[i].(end := pos + 1)] && tokens[..i] == old0[..i];
      var k := FindOpen(tokens, i);
      if k >= 0 { toksuper := k; }
      CloseIs(old0, pos, old(toksuper), old0[i].kind, i, k);
    }

    /** ',' */
    method Comma(js: string, tokens: array?<Token>, num: nat) returns (r: Status)
      requires Fits(tokens, num) && !AtEnd(js, pos) && js[pos] == ','
      modifies this`toksuper
      ensures CharEffect(js, tokens, num, r)
    {
      if tokens != null && toksuper != -1 && !IsContainer(tokens[toksuper]) {
        var i := toknext - 1;
        ghost var toks := tokens[..toknext];
        while i >= 0 && !(IsContainer(tokens[i]) && IsOpen(tokens[i]))
          invariant -1 <= i < toknext && LastOpenContainer(toks, |toks|) == LastOpenContainer(toks, i + 1)
        {
          i := i - 1;
        }
        if i >= 0 { toksuper := i; }
      }
      return Fine;
    }

    /** The body of the main loop. */
    method ParseChar(js: string, tokens: array?<Token>, num: nat) returns (r: Status, added: nat)
      requires Fits(tokens, num) && !AtEnd(js, pos)
      modifies this, tokens
      ensures CharEffect(js, tokens, num, r)
      ensures r == Fine && tokens == null ==> added == DryStep(js, old(pos)).added
      ensures r == Fine && tokens != null ==> added == Step(js, num, old(Abs(tokens))).added
    {
      var c := js[pos];
      r, added := Fine, 0;
      if c == '{' || c == '[' {
        r := OpenBracket(js, tokens, num);
        added := 1;
      } else if c == '}' || c == ']' {
        r := CloseBracket(js, tokens, num);
      } else if IsSpace(c) {
      } else if c == ':' {
        toksuper := toknext - 1;
      } else if c == ',' {
        r := Comma(js, tokens, num);
      } else {
        r := Leaf(js, tokens, num);
        added := 1;
      }
    }

    /** Parse JSON text and fill tokens; with a NULL array only count them. */
    method Parse(js: string, tokens: array?<Token>, num: nat) returns (r: Result)
      requires Fits(tokens, num)
      modifies this, tokens
      ensures Fits(tokens, num)
      ensures tokens == null ==>
        r == match DryRun(js, old(pos), 0) { case DryDone(n) => Count(n) case DryStop(e) => Failed(e) }
      ensures tokens != null ==>
        var o := Run(js, num, old(Abs(tokens)), 0);
        Abs(tokens) == o.st && tokens[toknext..] == old(tokens[..])[toknext..]
        && r == match o { case Done(n, _) => Count(n) case Stop(e, _) => Failed(e) }
    {
      hide Step, DryStep;
      var count := 0;
      ghost var st0 := if tokens == null then FRESH else Abs(tokens);
      ghost var p0 := pos;
      while !AtEnd(js, pos)
        invariant Fits(tokens, num) && count >= 0
        invariant tokens == null ==> DryRun(js, p0, 0) == DryRun(js, pos, count)
        invariant tokens != null ==> Run(js, num, st0, 0) == Run(js, num, Abs(tokens), count)
        invariant tokens != null ==> tokens[toknext..] == old(tokens[..])[toknext..]
        decreases |js| - pos
      {
        ghost var n, t1 := toknext, if tokens == null then [] else tokens[..];
        var s, added := ParseChar(js, tokens, num);
        if tokens != null { TailKept(old(tokens[..]), t1, tokens[..], n, toknext); }
        if s.Bad? { return Failed(s.error); }
        count := count + added;
        pos := pos + 1;
      }
      if tokens == null { return Count(count); }
      var i := FindOpen(tokens, toknext);
      if i >= 0 { return Failed(Part); }
      return Count(count);
    }
  }

  lemma TailKept<T>(a: seq<T>, b: seq<T>, c: seq<T>, n: nat, m: nat)
    requires n <= m <= |a| == |b| == |c| && b[n..] == a[n..] && c[m..] == b[m..]
    ensures c[m..] == a[m..]
  {
    assert b[m..] == b[n..][m - n..] && a[m..] == a[n..][m - n..];
  }

  lemma {:induction false} LastOpenPrefix(toks: seq<Token>, n: nat, m: nat)
    requires n <= m <= |toks|
    ensures LastOpen(toks, n) == LastOpen(toks[..m], n)
  {
    if n > 0 { LastOpenPrefix(toks, n - 1, m); }
  }
}
