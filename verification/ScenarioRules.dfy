/** Later lines of a scenario never overwrite what earlier lines stated. */
module ScenarioRules {
  import opened Results
  import opened Texts
  import opened Seqs
  import opened Folds
  import opened Scenarios

  ghost predicate StreamGrows(a: StreamExpect, b: StreamExpect) {
    (a.exact.Some? ==> b.exact.Some? && a.exact.value <= b.exact.value) && a.contains <= b.contains && (a.any ==> b.any)
  }

  /** `seen` says whether the exit status has been stated. */
  ghost predicate ExpectationGrows(a: Expectation, b: Expectation, seen: bool) {
    StreamGrows(a.stdout, b.stdout) && StreamGrows(a.stderr, b.stderr) && (seen ==> b.exit == a.exit) &&
    (a.prompt.Some? ==> b.prompt == a.prompt) && (a.choices.Some? ==> b.choices == a.choices)
  }

  ghost predicate ActionGrows(a: Action, b: Action) {
    if a.Eval? then b.Eval? && a.command <= b.command else b == a
  }

  ghost predicate StepGrows(a: Step, b: Step, seen: bool) {
    b.line == a.line && ActionGrows(a.action, b.action) && ExpectationGrows(a.expected, b.expected, seen)
  }

  /** Finished steps stay as they are; the last one, the headers and the step list only gain. */
  ghost predicate Grows(a: State, b: State) {
    var steps, steps' := a.scenario.steps, b.scenario.steps;
    (a.scenario.only.Some? ==> b.scenario.only == a.scenario.only) && a.scenario.tags <= b.scenario.tags &&
    |steps| <= |steps'| && (forall k :: 0 <= k < |steps| - 1 ==> steps'[k] == steps[k]) &&
    (steps != [] ==> StepGrows(LastStep(a.scenario), steps'[|steps| - 1], a.exitSeen)) &&
    (|steps'| == |steps| && a.exitSeen ==> b.exitSeen)
  }

  lemma GrowsRefl(a: State, open: bool)
    ensures Grows(a, a.(payloadOpen := open))
  {
  }

  lemma GrowsTrans(a: State, b: State, c: State)
    requires Grows(a, b) && Grows(b, c)
    ensures Grows(a, c)
  {
  }

  lemma StreamDirectiveGrows(s: Stated, err: bool, payload: Option<string>, text: string)
    ensures match ExactDirective(s, err, payload)
            case Ok(s') => ExpectationGrows(s.expected, s'.expected, s.exitSeen) && s'.exitSeen == s.exitSeen
            case Err(_) => true
    ensures match ContainsDirective(s, err, text)
            case Ok(s') => ExpectationGrows(s.expected, s'.expected, s.exitSeen) && s'.exitSeen == s.exitSeen
            case Err(_) => true
    ensures match AnyDirective(s, err, text)
            case Ok(s') => ExpectationGrows(s.expected, s'.expected, s.exitSeen) && s'.exitSeen == s.exitSeen
            case Err(_) => true
  {
  }

  lemma ExpectDirectiveGrows(s: Stated, d: Directive)
    ensures match ExpectDirective(s, d)
            case Ok(s') => ExpectationGrows(s.expected, s'.expected, s.exitSeen) && (s.exitSeen ==> s'.exitSeen)
            case Err(_) => true
  {
    StreamDirectiveGrows(s, d.0 == "err" || d.0 == "err~" || d.0 == "err*", d.1, OrEmpty(d.1));
  }

  lemma HeaderGrows(st: State, d: Directive)
    ensures HeaderDirective(st, d).Ok? ==> Grows(st, HeaderDirective(st, d).value)
  {
  }

  lemma AddStepGrows(st: State, n: nat, action: Action)
    ensures Grows(st, AddStep(st, n, action))
  {
  }

  lemma ContinuationGrows(st: State, text: string)
    ensures ContinuePayload(st, text).Ok? ==> Grows(st, ContinuePayload(st, text).value)
  {
  }

  lemma ExpectationLineGrows(st: State, d: Directive)
    ensures StepExpectation(st, d).Ok? ==> Grows(st, StepExpectation(st, d).value)
  {
    if st.scenario.steps != [] {
      ExpectDirectiveGrows(Stated(LastStep(st.scenario).expected, st.exitSeen), d);
    }
  }

  lemma DirectiveGrows(st: State, n: nat, d: Directive)
    ensures ParseDirective(st, n, d).Ok? ==> Grows(st, ParseDirective(st, n, d).value)
  {
    if d.0 != "" && d.0[0] == '@' {
      HeaderGrows(st, d);
    } else if d.0 == "run" {
      AddStepGrows(st, n, Eval(OrEmpty(d.1)));
    } else if d.0 == "+" {
      ContinuationGrows(st, OrEmpty(d.1));
    } else if d.0 == "answer" {
      AddStepGrows(st, n, Answer(OrEmpty(d.1)));
    } else if d.0 == "abort" {
      AddStepGrows(st, n, Abort);
    } else {
      ExpectationLineGrows(st, d);
    }
  }

  lemma LineGrows(st: State, n: nat, raw: string)
    ensures ParseLine(st, n, raw).Ok? ==> Grows(st, ParseLine(st, n, raw).value)
  {
    GrowsRefl(st, false);
    DirectiveGrows(st, n, SplitKeyword(StripCr(raw)));
  }

  ghost function GrownFrom(st: State): (State, nat) -> bool {
    (st': State, i: nat) => Grows(st, st')
  }

  ghost function AnyError(): ParseError -> bool {
    (e: ParseError) => true
  }

  lemma LineGrowsOn(st: State, st': State, n: nat, raw: string)
    requires Grows(st, st') && ParseLine(st', n, raw).Ok?
    ensures Grows(st, ParseLine(st', n, raw).value)
  {
    LineGrows(st', n, raw);
    GrowsTrans(st, st', ParseLine(st', n, raw).value);
  }

  lemma LineKeepsGrowing(st: State, n: nat, lines: seq<string>, st': State, i: nat)
    requires i < |lines|
    ensures Keeps(ParseLine, lines, n, GrownFrom(st), AnyError(), st', i)
  {
    if Grows(st, st') && ParseLine(st', n + i, lines[i]).Ok? {
      LineGrowsOn(st, st', n + i, lines[i]);
    }
  }

  lemma GrownFromItself(st: State)
    ensures GrownFrom(st)(st, 0)
  {
    GrowsRefl(st, st.payloadOpen);
  }

  /** No accepted line overwrites what an earlier line stated: a second exit, prompt~, choices or
      @only is never silently preferred, and finished steps do not change. */
  lemma NothingIsOverwritten(st: State, n: nat, lines: seq<string>)
    ensures ParseLines(st, n, lines).Ok? ==> Grows(st, ParseLines(st, n, lines).value)
  {
    forall st': State, i | 0 <= i < |lines|
      ensures Keeps(ParseLine, lines, n, GrownFrom(st), AnyError(), st', i)
    {
      LineKeepsGrowing(st, n, lines, st', i);
    }
    GrownFromItself(st);
    FoldKeeps(ParseLine, lines, n, GrownFrom(st), AnyError(), st, 0);
    SplitAt(lines, 0);
  }
}
