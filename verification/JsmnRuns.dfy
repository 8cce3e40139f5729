/** What holds over whole runs of the token parser: restart, dry run, nesting of spans. */
module JsmnRuns {
  import opened JsmnSpec

  // ---------- restart after running out of tokens ----------

  /** A step that succeeds under a limit does the same under a larger one; only the lack of room is lifted. */
  lemma StepMonotone(js: string, k1: nat, k2: nat, st: State)
    requires k1 <= k2 && !AtEnd(js, st.pos)
    ensures Step(js, k1, st) == Err(NoMem) || Step(js, k1, st) == Step(js, k2, st)
  {
  }

  /** One more token per counted one. */
  lemma {:induction false} RunCounts(js: string, limit: nat, st: State, count: nat)
    ensures var r := Run(js, limit, st, count);
      |r.st.toks| >= |st.toks| && (r.Done? ==> r.count == count + (|r.st.toks| - |st.toks|))
    decreases |js| - st.pos
  {
    if !AtEnd(js, st.pos) {
      var s := Step(js, limit, st);
      if s.Next? { RunCounts(js, limit, s.st, count + s.added); }
    }
  }

  /** The starting count only shifts the returned one. */
  lemma {:induction false} RunShift(js: string, limit: nat, st: State, c1: nat, c2: nat)
    ensures Run(js, limit, st, c1).st == Run(js, limit, st, c2).st
    ensures match (Run(js, limit, st, c1), Run(js, limit, st, c2))
            case (Done(_, _), Done(_, _)) => true
            case (Stop(e, _), Stop(f, _)) => e == f
            case _ => false
    decreases |js| - st.pos
  {
    if !AtEnd(js, st.pos) {
      var s := Step(js, limit, st);
      if s.Next? { RunShift(js, limit, s.st, c1 + s.added, c2 + s.added); }
    }
  }

  /**
   * After NOMEM, going on from the kept state with more room ends exactly where a single run with
   * that room ends: same tokens, same parser fields, same kind of result.
   */
  lemma {:induction false} Resume(js: string, k1: nat, k2: nat, st: State, count: nat)
    requires k1 <= k2
    requires var r := Run(js, k1, st, count); r.Stop? && r.error == NoMem
    ensures Run(js, k2, Run(js, k1, st, count).st, 0).st == Run(js, k2, st, count).st
    ensures Run(js, k2, Run(js, k1, st, count).st, 0).Done? == Run(js, k2, st, count).Done?
    ensures Run(js, k2, st, count).Stop? ==> Run(js, k2, Run(js, k1, st, count).st, 0).error == Run(js, k2, st, count).error
    decreases |js| - st.pos
  {
    StepMonotone(js, k1, k2, st);
    var s := Step(js, k1, st);
    if s.Next? {
      Resume(js, k1, k2, s.st, count + s.added);
    } else {
      RunShift(js, k2, st, 0, count);
    }
  }

  /** The growing arrays tried one after the other, each call keeping the tokens of the one before. */
  function Retry(js: string, limits: seq<nat>, st: State): (r: Outcome)
    requires |limits| > 0
  {
    var r := Run(js, limits[0], st, 0);
    if r.Stop? && r.error == NoMem && |limits| > 1 then Retry(js, limits[1..], r.st) else r
  }

  ghost predicate Growing(limits: seq<nat>) {
    forall i, j :: 0 <= i < j < |limits| ==> limits[i] <= limits[j]
  }

  /** Any number of retries ends like one call with the last size, whenever the retries end at all. */
  lemma {:induction false} RetryIsOneRun(js: string, limits: seq<nat>, st: State)
    requires |limits| > 0 && Growing(limits)
    ensures var r, one := Retry(js, limits, st), Run(js, limits[|limits| - 1], st, 0);
      (r.Stop? && r.error == NoMem) || (r.st == one.st && r.Done? == one.Done? && (one.Stop? ==> r.error == one.error))
    decreases |limits|
  {
    var k := limits[|limits| - 1];
    var r := Run(js, limits[0], st, 0);
    if r.Stop? && r.error == NoMem {
      if |limits| > 1 {
        RetryIsOneRun(js, limits[1..], r.st);
        Resume(js, limits[0], k, st, 0);
      }
    } else {
      assert limits[0] <= k;
      RunMonotone(js, limits[0], k, st, 0);
    }
  }

  /** A run that does not run out of tokens is the same run under any larger limit. */
  lemma {:induction false} RunMonotone(js: string, k1: nat, k2: nat, st: State, count: nat)
    requires k1 <= k2
    requires var r := Run(js, k1, st, count); !(r.Stop? && r.error == NoMem)
    ensures Run(js, k1, st, count) == Run(js, k2, st, count)
    decreases |js| - st.pos
  {
    if !AtEnd(js, st.pos) {
      StepMonotone(js, k1, k2, st);
      var s := Step(js, k1, st);
      if s.Next? { RunMonotone(js, k1, k2, s.st, count + s.added); }
    }
  }

  // ---------- the dry run ----------

  /** The count of a run without tokens is the count of every successful run with them. */
  lemma {:induction false} DryRunAgrees(js: string, limit: nat, st: State, count: nat)
    requires Run(js, limit, st, count).Done?
    ensures DryRun(js, st.pos, count) == DryDone(Run(js, limit, st, count).count)
    decreases |js| - st.pos
  {
    if !AtEnd(js, st.pos) {
      DryStepAgrees(js, limit, st);
      hide Step, DryStep, LastOpen;
      var s := Step(js, limit, st);
      DryRunAgrees(js, limit, s.st, count + s.added);
    }
  }

  lemma DryStepAgrees(js: string, limit: nat, st: State)
    requires !AtEnd(js, st.pos) && Step(js, limit, st).Next?
    ensures var s := Step(js, limit, st); DryStep(js, st.pos) == DryNext(s.st.pos, s.added)
  {
    hide ScanString, ScanPrimitive, LastOpen, LastOpenContainer, Bump;
  }

  /** And it is a budget that never runs out. */
  lemma {:induction false} DryRunSuffices(js: string, limit: nat, st: State, count: nat)
    requires DryRun(js, st.pos, count).DryDone? && |st.toks| == count
    requires DryRun(js, st.pos, count).count <= limit
    ensures var r := Run(js, limit, st, count); !(r.Stop? && r.error == NoMem)
    decreases |js| - st.pos
  {
    if !AtEnd(js, st.pos) {
      var s, d := Step(js, limit, st), DryStep(js, st.pos);
      if s.Next? { DryRunSuffices(js, limit, s.st, count + s.added); }
    }
  }

  /** Both, for a fresh parser. */
  lemma DryRunFromFresh(js: string, limit: nat)
    ensures Run(js, limit, FRESH, 0).Done? ==> DryRun(js, 0, 0) == DryDone(Run(js, limit, FRESH, 0).count)
    ensures DryRun(js, 0, 0).DryDone? ==>
      var r := Run(js, DryRun(js, 0, 0).count, FRESH, 0); !(r.Stop? && r.error == NoMem)
  {
    if Run(js, limit, FRESH, 0).Done? { DryRunAgrees(js, limit, FRESH, 0); }
    if DryRun(js, 0, 0).DryDone? { DryRunSuffices(js, DryRun(js, 0, 0).count, FRESH, 0); }
  }

  // ---------- spans ----------

  /** Spans end after they start, and every closed one ended before pos. */
  ghost predicate SpanOk(t: Token, pos: int) {
    0 <= t.start <= pos && (t.end == -1 || t.start <= t.end <= pos)
  }

  /** Of two tokens the later starts inside the earlier one's span and ends there too, or after it. */
  ghost predicate NestedOrApart(a: Token, b: Token) {
    a.start < b.start && (a.end != -1 ==> a.end <= b.start || (b.end != -1 && b.end <= a.end))
  }

  ghost predicate Nesting(st: State) {
    -1 <= st.super < |st.toks|
    && (forall i :: 0 <= i < |st.toks| ==> SpanOk(st.toks[i], st.pos) && st.toks[i].start < st.pos)
    && (forall i, j :: 0 <= i < j < |st.toks| ==> NestedOrApart(st.toks[i], st.toks[j]))
  }

  lemma NestingAppend(st: State, t: Token, pos: nat, super: int)
    requires Nesting(st) && st.pos <= t.start < pos && SpanOk(t, pos) && -1 <= super <= |st.toks|
    ensures Nesting(State(pos, Bump(st.toks, st.super) + [t], super))
  {
  }

  lemma NestingClose(st: State, i: nat, super: int)
    requires Nesting(st) && i < |st.toks| && IsOpen(st.toks[i]) && -1 <= super < i
    requires forall k :: i < k < |st.toks| ==> !IsOpen(st.toks[k])
    ensures Nesting(State(st.pos + 1, st.toks[i := st.toks[i].(end := st.pos + 1)], super))
  {
    var toks := st.toks[i := st.toks[i].(end := st.pos + 1)];
    forall a, b | 0 <= a < b < |toks| ensures NestedOrApart(toks[a], toks[b]) {
      assert NestedOrApart(st.toks[a], st.toks[b]);
      assert SpanOk(st.toks[a], st.pos) && SpanOk(st.toks[b], st.pos);
    }
  }

  lemma NestingMoves(st: State, super: int)
    requires Nesting(st) && -1 <= super < |st.toks|
    ensures Nesting(State(st.pos + 1, st.toks, super))
  {
  }

  lemma NestingStep(js: string, limit: nat, st: State)
    requires Nesting(st) && !AtEnd(js, st.pos) && Step(js, limit, st).Next?
    ensures Nesting(Step(js, limit, st).st)
  {
    assert -1 <= st.super < |st.toks|;
    hide Bump, Nesting, LastOpen, LastOpenContainer, ScanString, ScanPrimitive;
    var c := js[st.pos];
    if c == '{' || c == '[' {
      NestingAppend(st, Token(if c == '{' then Object else Array, st.pos, -1, 0), st.pos + 1, |st.toks|);
    } else if c == '}' || c == ']' {
      var i := LastOpen(st.toks, |st.toks|);
      NestingClose(st, i, LastOpen(st.toks, i));
    } else if c == '\"' {
      var q := ScanString(js, st.pos + 1);
      NestingAppend(st, Token(String, st.pos + 1, q.at, 0), q.at + 1, st.super);
    } else if IsDelimiter(c) {
      NestingMoves(st, Step(js, limit, st).st.super);
    } else {
      var q := ScanPrimitive(js, st.pos);
      NestingAppend(st, Token(Primitive, st.pos, q.at, 0), q.at, st.super);
    }
  }

  lemma {:induction false} NestingRun(js: string, limit: nat, st: State, count: nat)
    requires Nesting(st)
    ensures Nesting(Run(js, limit, st, count).st)
    decreases |js| - st.pos
  {
    if !AtEnd(js, st.pos) {
      var s := Step(js, limit, st);
      if s.Next? {
        NestingStep(js, limit, st);
        NestingRun(js, limit, s.st, count + s.added);
      }
    }
  }

  /** Spans of a finished parse: well-formed, starting later and later, pairwise nested or disjoint. */
  ghost predicate SpanForest(toks: seq<Token>, n: nat) {
    (forall i :: 0 <= i < |toks| ==> 0 <= toks[i].start <= toks[i].end <= n)
    && (forall i, j :: 0 <= i < j < |toks| ==>
          toks[i].start < toks[j].start && (toks[i].end <= toks[j].start || toks[j].end <= toks[i].end))
  }

  /** Every successful parse from a fresh parser, of any text, in any array. */
  lemma SuccessIsForest(js: string, limit: nat)
    requires Run(js, limit, FRESH, 0).Done?
    ensures var r := Run(js, limit, FRESH, 0);
      SpanForest(r.st.toks, r.st.pos) && r.count == |r.st.toks| <= limit
  {
    var r := Run(js, limit, FRESH, 0);
    NestingRun(js, limit, FRESH, 0);
    RunCounts(js, limit, FRESH, 0);
    DoneMeansClosed(js, limit, FRESH, 0);
    RunWithinLimit(js, limit, FRESH, 0);
    forall i | 0 <= i < |r.st.toks| ensures 0 <= r.st.toks[i].start <= r.st.toks[i].end <= r.st.pos {
      assert SpanOk(r.st.toks[i], r.st.pos) && !IsOpen(r.st.toks[i]);
    }
    forall i, j | 0 <= i < j < |r.st.toks|
      ensures r.st.toks[i].start < r.st.toks[j].start
        && (r.st.toks[i].end <= r.st.toks[j].start || r.st.toks[j].end <= r.st.toks[i].end)
    {
      assert NestedOrApart(r.st.toks[i], r.st.toks[j]);
    }
  }

  lemma {:induction false} DoneMeansClosed(js: string, limit: nat, st: State, count: nat)
    requires Run(js, limit, st, count).Done?
    ensures var r := Run(js, limit, st, count); forall i :: 0 <= i < |r.st.toks| ==> !IsOpen(r.st.toks[i])
    decreases |js| - st.pos
  {
    if !AtEnd(js, st.pos) {
      var s := Step(js, limit, st);
      DoneMeansClosed(js, limit, s.st, count + s.added);
    }
  }

  lemma {:induction false} RunWithinLimit(js: string, limit: nat, st: State, count: nat)
    requires |st.toks| <= limit
    ensures |Run(js, limit, st, count).st.toks| <= limit
    decreases |js| - st.pos
  {
    if !AtEnd(js, st.pos) {
      var s := Step(js, limit, st);
      if s.Next? { RunWithinLimit(js, limit, s.st, count + s.added); }
    }
  }

  // ---------- a comma with no superior token ----------

  /** Without a superior token nothing is open. */
  ghost predicate Settled(st: State) {
    -1 <= st.super && (st.super == -1 ==> forall i :: 0 <= i < |st.toks| ==> !IsOpen(st.toks[i]))
  }

  lemma SettledStep(js: string, limit: nat, st: State)
    requires Settled(st) && !AtEnd(js, st.pos) && Step(js, limit, st).Next?
    ensures Settled(Step(js, limit, st).st)
  {
    hide ScanString, ScanPrimitive;
    var c := js[st.pos];
    if c == '}' || c == ']' {
      var i := LastOpen(st.toks, |st.toks|);
      assert forall k :: 0 <= k < i && LastOpen(st.toks, i) == -1 ==> !IsOpen(st.toks[k]);
    }
  }

  /** So it is after every number of characters, in every array, whether the run goes on or has stopped. */
  lemma {:induction false} SettledRun(js: string, limit: nat, st: State, count: nat)
    requires Settled(st)
    ensures Settled(Run(js, limit, st, count).st)
    decreases |js| - st.pos
  {
    hide Settled;
    if !AtEnd(js, st.pos) {
      var s := Step(js, limit, st);
      if s.Next? {
        SettledStep(js, limit, st);
        SettledRun(js, limit, s.st, count + s.added);
      }
    }
  }

  /** A comma as the source takes it when toksuper is -1 and the token read before the array is, or is not, a container. */
  function CommaReading(st: State, container: bool): (r: StepResult) {
    var i := LastOpenContainer(st.toks, |st.toks|);
    if !container && i != -1 then Next(State(st.pos + 1, st.toks, i), 0) else Next(st.(pos := st.pos + 1), 0)
  }

  /** Whatever is read there, the comma changes nothing but the position, from the fresh state on. */
  lemma CommaReadsNothing(st: State, container: bool)
    requires Settled(st) && st.super == -1
    ensures CommaReading(st, container) == CommaStep(st) == Next(st.(pos := st.pos + 1), 0)
    ensures Settled(FRESH)
  {
  }
}
