/** What the scenario parser guarantees of every text, and of every scenario it accepts. */
module ScenarioInvariants {
  import opened Results
  import opened Texts
  import opened Seqs
  import opened Folds
  import opened Scenarios

  // ---------- Canonical scenarios ----------

  predicate Payload(s: string) {
    s != "" && OneLine(s)
  }

  ghost predicate GoodStream(s: StreamExpect) {
    (s.exact.Some? ==> s.exact.value != [] && forall i :: 0 <= i < |s.exact.value| ==> OneLine(s.exact.value[i])) &&
    (forall i :: 0 <= i < |s.contains| ==> Payload(s.contains[i]))
  }

  ghost predicate GoodChoices(list: seq<string>) {
    list != [] && forall i :: 0 <= i < |list| ==> Payload(list[i]) && ',' !in list[i]
  }

  ghost predicate GoodExpectation(e: Expectation) {
    GoodStream(e.stdout) && GoodStream(e.stderr) && (e.exit.Code? ==> e.exit.code <= 255) &&
    (e.prompt.Some? ==> Payload(e.prompt.value)) && (e.choices.Some? ==> GoodChoices(e.choices.value))
  }

  predicate GoodAction(a: Action) {
    match a
    case Eval(command) => !IsBlank(SplitOn(command, '\n')[0])
    case Answer(text) => OneLine(text)
    case Abort => true
  }

  ghost predicate GoodStep(step: Step) {
    GoodAction(step.action) && GoodExpectation(step.expected)
  }

  ghost predicate GoodSteps(steps: seq<Step>) {
    forall i :: 0 <= i < |steps| ==> GoodStep(steps[i])
  }

  predicate GoodTag(tag: string) {
    Payload(tag) && Trim(tag) == tag
  }

  ghost predicate GoodScenario(sc: Scenario) {
    GoodSteps(sc.steps) && forall i :: 0 <= i < |sc.tags| ==> GoodTag(sc.tags[i])
  }

  /** A scenario with at least one step and no stream both unasserted and asserted. */
  ghost predicate Canonical(sc: Scenario) {
    GoodScenario(sc) && sc.steps != [] && forall i :: 0 <= i < |sc.steps| ==> !StepContradictory(sc.steps[i])
  }

  /** Step lines increase strictly and lie before `n`. */
  ghost predicate Ascending(steps: seq<Step>, n: nat) {
    (forall i :: 0 <= i < |steps| ==> 1 <= steps[i].line < n) &&
    (forall i, j :: 0 <= i < j < |steps| ==> steps[i].line < steps[j].line)
  }

  /** `+` is only open while the last step is a command. */
  ghost predicate PayloadOpenIsEval(st: State) {
    st.payloadOpen ==> st.scenario.steps != [] && LastStep(st.scenario).action.Eval?
  }

  ghost predicate AllOneLine(lines: seq<string>) {
    forall i :: 0 <= i < |lines| ==> OneLine(lines[i])
  }

  ghost predicate Inv(st: State, n: nat) {
    n >= 1 && GoodScenario(st.scenario) && Ascending(st.scenario.steps, n) && PayloadOpenIsEval(st)
  }

  /** A line leaves the invariant, or an ordinary error. */
  ghost predicate Outcome(r: Result<State, ParseError>, n: nat) {
    match r
    case Ok(st) => Inv(st, n)
    case Err(e) => e.kind != Panic
  }

  // ---------- Splitting keeps characters out ----------

  lemma {:induction false} SplitOnConcat(a: string, c: char, b: string)
    ensures SplitOn(a + [c] + b, c) == SplitOn(a, c) + SplitOn(b, c)
    decreases |a|
  {
    var i, s := IndexOf(a, c), a + [c] + b;
    if i == |a| {
      IndexOfFirst(a, c, b);
      assert s[..|a|] == a && s[|a| + 1..] == b;
    } else {
      IndexOfFirst(a[..i], c, a[i + 1..] + [c] + b);
      assert a == a[..i] + [c] + a[i + 1..];
      assert s == a[..i] + [c] + (a[i + 1..] + [c] + b);
      assert s[..i] == a[..i] && s[i + 1..] == a[i + 1..] + [c] + b;
      SplitOnConcat(a[i + 1..], c, b);
      Reassociate([a[..i]], SplitOn(a[i + 1..], c), SplitOn(b, c));
    }
  }

  lemma {:induction false} SplitOnParts(s: string, c: char, d: char, k: nat)
    requires k < |SplitOn(s, c)|
    ensures c !in SplitOn(s, c)[k] && (d !in s ==> d !in SplitOn(s, c)[k])
    decreases |s|
  {
    var i := IndexOf(s, c);
    if i < |s| && k > 0 {
      SplitOnParts(s[i + 1..], c, d, k - 1);
    }
  }

  lemma TrimIsTrimmed(s: string)
    ensures Trim(Trim(s)) == Trim(s)
  {
  }

  lemma SplitKeywordKeepsOneLine(line: string)
    requires OneLine(line)
    ensures OneLine(SplitKeyword(line).0) && OneLine(OrEmpty(SplitKeyword(line).1))
  {
  }

  // ---------- Every line keeps the invariant ----------

  /** Good expectations, or an error. */
  ghost predicate GoodOutcome(r: Result<Stated, ErrorKind>) {
    r.Ok? ==> GoodExpectation(r.value.expected)
  }

  lemma StreamKeepsGood(e: Expectation, err: bool, s: StreamExpect)
    requires GoodExpectation(e) && GoodStream(s)
    ensures GoodExpectation(WithStream(e, err, s))
  {
  }

  lemma ExactKeepsGood(s: Stated, err: bool, payload: Option<string>)
    requires GoodExpectation(s.expected) && OneLine(OrEmpty(payload))
    ensures GoodOutcome(ExactDirective(s, err, payload))
  {
    if payload.Some? {
      StreamKeepsGood(s.expected, err, PushExact(Stream(s.expected, err), payload.value));
    }
  }

  lemma ContainsKeepsGood(s: Stated, err: bool, text: string)
    requires GoodExpectation(s.expected) && OneLine(text)
    ensures GoodOutcome(ContainsDirective(s, err, text))
  {
    if text != "" {
      var stream := Stream(s.expected, err);
      StreamKeepsGood(s.expected, err, stream.(contains := stream.contains + [text]));
    }
  }

  lemma AnyKeepsGood(s: Stated, err: bool, text: string)
    requires GoodExpectation(s.expected)
    ensures GoodOutcome(AnyDirective(s, err, text))
  {
    StreamKeepsGood(s.expected, err, Stream(s.expected, err).(any := true));
  }

  lemma ExitKeepsGood(s: Stated, text: string)
    requires GoodExpectation(s.expected)
    ensures GoodOutcome(ExitDirective(s, text))
  {
  }

  lemma PromptKeepsGood(s: Stated, text: string)
    requires GoodExpectation(s.expected) && OneLine(text)
    ensures GoodOutcome(PromptDirective(s, text))
  {
  }

  lemma ChoicesKeepGood(s: Stated, text: string)
    requires GoodExpectation(s.expected) && OneLine(text)
    ensures GoodOutcome(ChoicesDirective(s, text))
  {
    forall k | 0 <= k < |SplitOn(text, ',')|
      ensures ',' !in SplitOn(text, ',')[k] && OneLine(SplitOn(text, ',')[k])
    {
      SplitOnParts(text, ',', '\n', k);
    }
  }

  lemma ExpectKeepsGood(s: Stated, d: Directive)
    requires GoodExpectation(s.expected) && OneLine(OrEmpty(d.1))
    ensures GoodOutcome(ExpectDirective(s, d))
  {
    var (keyword, payload) := d;
    var text := OrEmpty(payload);
    if keyword == "out" || keyword == "err" {
      ExactKeepsGood(s, keyword == "err", payload);
    } else if keyword == "out~" || keyword == "err~" {
      ContainsKeepsGood(s, keyword == "err~", text);
    } else if keyword == "out*" || keyword == "err*" {
      AnyKeepsGood(s, keyword == "err*", text);
    } else if keyword == "exit" {
      ExitKeepsGood(s, text);
    } else if keyword == "prompt~" {
      PromptKeepsGood(s, text);
    } else if keyword == "choices" {
      ChoicesKeepGood(s, text);
    }
  }

  lemma ExpectNeverPanics(s: Stated, d: Directive)
    ensures ExpectDirective(s, d) != Err(Panic)
  {
  }

  lemma HeaderKeepsInv(st: State, n: nat, d: Directive)
    requires Inv(st, n) && OneLine(OrEmpty(d.1))
    ensures match HeaderDirective(st, d) case Ok(st') => Inv(st', n) case Err(kind) => kind != Panic
  {
    TrimKeepsChars(OrEmpty(d.1), '\n');
    TrimIsTrimmed(OrEmpty(d.1));
  }

  lemma AddStepKeepsInv(st: State, n: nat, action: Action)
    requires Inv(st, n) && GoodAction(action)
    ensures Inv(AddStep(st, n, action), n + 1)
  {
  }

  lemma ReplaceLastKeepsAscending(sc: Scenario, n: nat, step: Step)
    requires Ascending(sc.steps, n) && sc.steps != [] && step.line == LastStep(sc).line
    ensures Ascending(WithLastStep(sc, step).steps, n)
  {
  }

  lemma ReplaceLastKeepsGood(sc: Scenario, step: Step)
    requires GoodScenario(sc) && sc.steps != [] && GoodStep(step)
    ensures GoodScenario(WithLastStep(sc, step))
  {
  }

  lemma ContinueKeepsInv(st: State, n: nat, text: string)
    requires Inv(st, n) && OneLine(text)
    ensures match ContinuePayload(st, text) case Ok(st') => Inv(st', n) case Err(kind) => kind != Panic
  {
    if st.payloadOpen {
      var last := LastStep(st.scenario);
      SplitOnConcat(last.action.command, '\n', text);
      var step := last.(action := Eval(last.action.command + "\n" + text));
      ReplaceLastKeepsGood(st.scenario, step);
      ReplaceLastKeepsAscending(st.scenario, n, step);
    }
  }

  lemma ExpectationKeepsInv(st: State, n: nat, d: Directive)
    requires Inv(st, n) && OneLine(OrEmpty(d.1))
    ensures match StepExpectation(st, d) case Ok(st') => Inv(st', n) case Err(kind) => kind != Panic
  {
    if st.scenario.steps != [] {
      var last := LastStep(st.scenario);
      var s := Stated(last.expected, st.exitSeen);
      ExpectKeepsGood(s, d);
      ExpectNeverPanics(s, d);
      if ExpectDirective(s, d).Ok? {
        var step := last.(expected := ExpectDirective(s, d).value.expected);
        ReplaceLastKeepsGood(st.scenario, step);
        ReplaceLastKeepsAscending(st.scenario, n, step);
      }
    }
  }

  lemma FirstPartOfOneLine(s: string)
    requires OneLine(s)
    ensures SplitOn(s, '\n') == [s]
  {
  }

  lemma DirectiveKeepsInv(st: State, n: nat, d: Directive)
    requires Inv(st, n) && OneLine(OrEmpty(d.1))
    ensures match ParseDirective(st, n, d) case Ok(st') => Inv(st', n + 1) case Err(kind) => kind != Panic
  {
    var (keyword, payload) := d;
    if keyword != "" && keyword[0] == '@' {
      HeaderKeepsInv(st, n, d);
    } else if keyword == "run" {
      FirstPartOfOneLine(OrEmpty(payload));
      if !IsBlank(OrEmpty(payload)) {
        AddStepKeepsInv(st, n, Eval(OrEmpty(payload)));
      }
    } else if keyword == "+" {
      ContinueKeepsInv(st, n, OrEmpty(payload));
    } else if keyword == "answer" {
      AddStepKeepsInv(st, n, Answer(OrEmpty(payload)));
    } else if keyword == "abort" {
      AddStepKeepsInv(st, n, Abort);
    } else {
      ExpectationKeepsInv(st, n, d);
    }
  }

  lemma LineKeepsInv(st: State, n: nat, raw: string)
    requires Inv(st, n) && OneLine(raw)
    ensures Outcome(ParseLine(st, n, raw), n + 1)
  {
    SplitKeywordKeepsOneLine(StripCr(raw));
    DirectiveKeepsInv(st, n, SplitKeyword(StripCr(raw)));
  }

  ghost function InvAt(): (State, nat) -> bool {
    (st: State, i: nat) => Inv(st, i + 1)
  }

  ghost function Ordinary(): ParseError -> bool {
    (e: ParseError) => e.kind != Panic
  }

  lemma LineKeepsInvAt(lines: seq<string>, st: State, i: nat)
    requires i < |lines| && OneLine(lines[i])
    ensures Keeps(ParseLine, lines, 1, InvAt(), Ordinary(), st, i)
  {
    if Inv(st, i + 1) {
      LineKeepsInv(st, i + 1, lines[i]);
    }
  }

  lemma LinesKeepInv(lines: seq<string>)
    requires AllOneLine(lines)
    ensures match ParseLines(START, 1, lines)
            case Ok(st) => Inv(st, |lines| + 1)
            case Err(e) => e.kind != Panic
  {
    forall st: State, i | 0 <= i < |lines|
      ensures Keeps(ParseLine, lines, 1, InvAt(), Ordinary(), st, i)
    {
      LineKeepsInvAt(lines, st, i);
    }
    FoldKeeps(ParseLine, lines, 1, InvAt(), Ordinary(), START, 0);
    SplitAt(lines, 0);
  }

  lemma {:induction false} NoContradiction(steps: seq<Step>)
    ensures FirstContradiction(steps).None? <==> forall i :: 0 <= i < |steps| ==> !StepContradictory(steps[i])
  {
    if steps != [] {
      NoContradiction(steps[1..]);
      assert forall i :: 1 <= i < |steps| ==> steps[i] == steps[1..][i - 1];
    }
  }

  // ---------- What callers may rely on ----------

  /** No text reaches the parser's `unreachable!`. Every accepted text yields a canonical scenario:
      at least one step, no stream both unasserted and asserted, and strictly increasing lines that
      lie within the file. */
  lemma ParseIsWellFormed(text: string)
    ensures match Parse(text)
            case Ok(sc) => Canonical(sc) && Ascending(sc.steps, |Lines(text)| + 1)
            case Err(e) => e.kind != Panic
  {
    var lines := Lines(text);
    forall i | 0 <= i < |lines|
      ensures OneLine(lines[i])
    {
      LinesHaveNoNewline(text, i);
    }
    LinesKeepInv(lines);
    if ParseLines(START, 1, lines).Ok? {
      NoContradiction(ParseLines(START, 1, lines).value.scenario.steps);
    }
  }
}
