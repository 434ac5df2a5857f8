/** Comments and blank lines: what they look like, and that they change nothing but later line numbers. */
module ScenarioComments {
  import opened Results
  import opened Texts
  import opened Seqs
  import opened Folds
  import opened Scenarios
  import opened ScenarioInvariants

  // ---------- What they look like ----------

  /** Whitespace alone, or whitespace and then `#` and any text. */
  ghost predicate Unread(raw: string) {
    exists w :: AllWhitespace(w) && (raw == w || exists text :: raw == w + ("#" + text))
  }

  lemma WhitespaceIsBlank(w: string)
    requires AllWhitespace(w)
    ensures IsBlank(w)
  {
    EmptyUnit(w);
    TrimStartPast(w, "");
  }

  lemma BlankLineIsUnread(st: State, n: nat, w: string)
    requires AllWhitespace(w)
    ensures ParseLine(st, n, w) == Ok(st.(payloadOpen := false))
  {
    WhitespaceIsBlank(StripCr(w));
  }

  lemma CommentStripped(w: string, text: string)
    ensures StripCr(w + ("#" + text)) == w + ("#" + StripCr(text))
  {
    var raw := w + ("#" + text);
    if text == "" {
      assert raw[|raw| - 1] == '#';
    } else {
      assert raw[|raw| - 1] == text[|text| - 1];
      assert raw[..|raw| - 1] == w + ("#" + text[..|text| - 1]);
    }
  }

  lemma CommentIsUnread(st: State, n: nat, w: string, text: string)
    requires AllWhitespace(w)
    ensures ParseLine(st, n, w + ("#" + text)) == Ok(st.(payloadOpen := false))
  {
    CommentStripped(w, text);
    TrimStartPast(w, "#" + StripCr(text));
    assert !IsWhitespace('#') && ("#" + StripCr(text))[0] == '#';
  }

  /** In every state and on every line, such a line is skipped, and ends the command above it. */
  lemma UnreadLine(st: State, n: nat, raw: string)
    requires Unread(raw)
    ensures ParseLine(st, n, raw) == Ok(st.(payloadOpen := false))
  {
    var w :| AllWhitespace(w) && (raw == w || exists text :: raw == w + ("#" + text));
    if raw == w {
      BlankLineIsUnread(st, n, w);
    } else {
      var text :| raw == w + ("#" + text);
      CommentIsUnread(st, n, w, text);
    }
  }

  // ---------- Line numbers ----------

  /** The number that a line gets when one more is put below line m. */
  function Later(line: nat, m: nat): nat {
    if line > m then line + 1 else line
  }

  function LaterSteps(steps: seq<Step>, m: nat): (shifted: seq<Step>)
    ensures |shifted| == |steps|
    ensures forall i :: 0 <= i < |steps| ==> shifted[i] == steps[i].(line := Later(steps[i].line, m))
  {
    seq(|steps|, i requires 0 <= i < |steps| => steps[i].(line := Later(steps[i].line, m)))
  }

  function LaterScenario(sc: Scenario, m: nat): Scenario {
    sc.(steps := LaterSteps(sc.steps, m))
  }

  function LaterState(st: State, m: nat): State {
    st.(scenario := LaterScenario(st.scenario, m))
  }

  function LaterError(e: ParseError, m: nat): ParseError {
    e.(line := Later(e.line, m))
  }

  function LaterResult(r: Result<State, ParseError>, m: nat): Result<State, ParseError> {
    match r
    case Ok(st) => Ok(LaterState(st, m))
    case Err(e) => Err(LaterError(e, m))
  }

  // ---------- Reading further down ----------

  lemma AddStepLater(st: State, n: nat, action: Action, m: nat)
    requires n > m
    ensures AddStep(LaterState(st, m), n + 1, action) == LaterState(AddStep(st, n, action), m)
  {
  }

  lemma LastStepLater(sc: Scenario, step: Step, m: nat)
    requires sc.steps != []
    ensures LastStep(LaterScenario(sc, m)) == LastStep(sc).(line := Later(LastStep(sc).line, m))
    ensures WithLastStep(LaterScenario(sc, m), step.(line := Later(step.line, m))) ==
            LaterScenario(WithLastStep(sc, step), m)
  {
  }

  lemma ContinueLater(st: State, text: string, m: nat)
    ensures ContinuePayload(LaterState(st, m), text) ==
            match ContinuePayload(st, text)
            case Ok(st') => Ok(LaterState(st', m))
            case Err(kind) => Err(kind)
  {
    if st.payloadOpen && st.scenario.steps != [] && LastStep(st.scenario).action.Eval? {
      var last := LastStep(st.scenario);
      LastStepLater(st.scenario, last.(action := Eval(last.action.command + "\n" + text)), m);
    }
  }

  lemma ExpectationLater(st: State, d: Directive, m: nat)
    ensures StepExpectation(LaterState(st, m), d) ==
            match StepExpectation(st, d)
            case Ok(st') => Ok(LaterState(st', m))
            case Err(kind) => Err(kind)
  {
    if st.scenario.steps != [] {
      var last := LastStep(st.scenario);
      var r := ExpectDirective(Stated(last.expected, st.exitSeen), d);
      LastStepLater(st.scenario, last, m);
      if r.Ok? {
        LastStepLater(st.scenario, last.(expected := r.value.expected), m);
      }
    }
  }

  lemma HeaderLater(st: State, d: Directive, m: nat)
    ensures HeaderDirective(LaterState(st, m), d) ==
            match HeaderDirective(st, d)
            case Ok(st') => Ok(LaterState(st', m))
            case Err(kind) => Err(kind)
  {
    if st.scenario.steps == [] {
      assert LaterSteps([], m) == [];
    }
  }

  lemma DirectiveLater(st: State, n: nat, d: Directive, m: nat)
    requires n > m
    ensures ReadDirective(LaterState(st, m), n + 1, d) == LaterResult(ReadDirective(st, n, d), m)
  {
    var (keyword, payload) := d;
    if keyword != "" && keyword[0] == '@' {
      HeaderLater(st, d, m);
    } else if keyword == "run" {
      AddStepLater(st, n, Eval(OrEmpty(payload)), m);
    } else if keyword == "+" {
      ContinueLater(st, OrEmpty(payload), m);
    } else if keyword == "answer" {
      AddStepLater(st, n, Answer(OrEmpty(payload)), m);
    } else if keyword == "abort" {
      AddStepLater(st, n, Abort, m);
    } else {
      ExpectationLater(st, d, m);
    }
  }

  lemma LineLater(st: State, n: nat, raw: string, m: nat)
    requires n > m
    ensures ParseLine(LaterState(st, m), n + 1, raw) == LaterResult(ParseLine(st, n, raw), m)
  {
    DirectiveLater(st, n, SplitKeyword(StripCr(raw)), m);
  }

  function StateLater(m: nat): State -> State {
    (st: State) => LaterState(st, m)
  }

  function ErrorLater(m: nat): ParseError -> ParseError {
    (e: ParseError) => LaterError(e, m)
  }

  lemma LineCarries(st: State, n: nat, raw: string, m: nat)
    requires n > m
    ensures Carries(ParseLine, StateLater(m), ErrorLater(m), st, n, raw)
  {
    LineLater(st, n, raw, m);
  }

  /** The same lines read one line further down. */
  lemma LinesLater(st: State, n: nat, lines: seq<string>, m: nat)
    requires n > m
    ensures ParseLines(LaterState(st, m), n + 1, lines) == LaterResult(ParseLines(st, n, lines), m)
  {
    forall st: State, n: nat, raw: string | n > m
      ensures Carries(ParseLine, StateLater(m), ErrorLater(m), st, n, raw)
    {
      LineCarries(st, n, raw, m);
    }
    FoldCarries(ParseLine, StateLater(m), ErrorLater(m), m, st, n, lines);
  }

  // ---------- A line that goes unread, put in anywhere ----------

  /** A `+` line, which goes on with the command right above it. */
  predicate ContinuesAbove(raw: string) {
    StripCr(raw) == "+" || "+ " <= StripCr(raw)
  }

  lemma PlusKeyword(line: string)
    ensures SplitKeyword(line).0 == "+" <==> line == "+" || "+ " <= line
  {
    if "+ " <= line {
      IndexOfFirst("+", ' ', line[2..]);
      assert line == "+" + [' '] + line[2..];
    }
  }

  /** Only a `+` line asks whether the command above may still go on. */
  lemma ClosedMakesNoDifference(st: State, n: nat, raw: string)
    requires PayloadOpenIsEval(st) && !ContinuesAbove(raw)
    ensures ParseLine(st.(payloadOpen := false), n, raw) == ParseLine(st, n, raw)
  {
    PlusKeyword(StripCr(raw));
  }

  lemma ClosedLines(st: State, n: nat, lines: seq<string>)
    requires PayloadOpenIsEval(st) && lines != [] && !ContinuesAbove(lines[0])
    ensures ParseLines(st.(payloadOpen := false), n, lines) == ParseLines(st, n, lines)
  {
    ClosedMakesNoDifference(st, n, lines[0]);
  }

  lemma {:induction false} EarlierStepsStay(steps: seq<Step>, n: nat, m: nat)
    requires Ascending(steps, n) && n <= m + 1
    ensures LaterSteps(steps, m) == steps
  {
    forall i | 0 <= i < |steps|
      ensures LaterSteps(steps, m)[i] == steps[i]
    {
    }
  }

  /** What was read, without whether a command may still go on. */
  function ScenarioRead(r: Result<State, ParseError>): Result<Scenario, ParseError> {
    match r
    case Ok(st) => Ok(st.scenario)
    case Err(e) => Err(e)
  }

  function LaterRead(r: Result<Scenario, ParseError>, m: nat): Result<Scenario, ParseError> {
    match r
    case Ok(sc) => Ok(LaterScenario(sc, m))
    case Err(e) => Err(LaterError(e, m))
  }

  lemma InsertedAfter(st: State, m: nat, raw: string, below: seq<string>)
    requires PayloadOpenIsEval(st) && Ascending(st.scenario.steps, m + 1) && Unread(raw)
    requires below != [] ==> !ContinuesAbove(below[0])
    ensures ScenarioRead(ParseLines(st, m + 1, [raw] + below)) ==
            LaterRead(ScenarioRead(ParseLines(st, m + 1, below)), m)
  {
    var closed := st.(payloadOpen := false);
    UnreadLine(st, m + 1, raw);
    FirstOfConcat([raw], below);
    EmptyUnit(below);
    EarlierStepsStay(st.scenario.steps, m + 1, m);
    assert LaterState(closed, m) == closed;
    LinesLater(closed, m + 1, below, m);
    if below != [] {
      ClosedLines(st, m + 1, below);
    }
  }

  lemma {:induction false} ErrorsLieWithin(st: State, n: nat, lines: seq<string>)
    ensures ParseLines(st, n, lines).Err? ==> ParseLines(st, n, lines).error.line < n + |lines|
    decreases |lines|
  {
    if lines != [] && ParseLine(st, n, lines[0]).Ok? {
      ErrorsLieWithin(ParseLine(st, n, lines[0]).value, n + 1, lines[1..]);
    }
  }

  type LineReader = (State, nat, string) -> Result<State, ParseError>

  /** What differs after the lines above differs by as much after all of them. */
  lemma InsertedBelow(read: LineReader, above: seq<string>, a: seq<string>, b: seq<string>, st: State, n: nat)
    requires Fold(read, START, 1, above) == Ok(st) && n == 1 + |above|
    requires ScenarioRead(Fold(read, st, n, b)) == LaterRead(ScenarioRead(Fold(read, st, n, a)), |above|)
    ensures ScenarioRead(Fold(read, START, 1, above + b)) ==
            LaterRead(ScenarioRead(Fold(read, START, 1, above + a)), |above|)
  {
    FoldBoth(read, START, 1, above, a, st);
    FoldBoth(read, START, 1, above, b, st);
  }

  lemma RefusedAbove(above: seq<string>, raw: string, below: seq<string>)
    requires ParseLines(START, 1, above).Err?
    ensures ScenarioRead(ParseLines(START, 1, above + ([raw] + below))) ==
            LaterRead(ScenarioRead(ParseLines(START, 1, above + below)), |above|)
  {
    FoldStops(ParseLine, START, 1, above, below);
    FoldStops(ParseLine, START, 1, above, [raw] + below);
    ErrorsLieWithin(START, 1, above);
  }

  lemma ReadAbove(above: seq<string>, st: State)
    requires AllOneLine(above) && ParseLines(START, 1, above) == Ok(st)
    ensures PayloadOpenIsEval(st) && Ascending(st.scenario.steps, |above| + 1)
  {
    LinesKeepInv(above);
  }

  lemma InsertedBelowRead(above: seq<string>, raw: string, below: seq<string>, st: State)
    requires ParseLines(START, 1, above) == Ok(st) && Unread(raw) && (below != [] ==> !ContinuesAbove(below[0]))
    requires PayloadOpenIsEval(st) && Ascending(st.scenario.steps, |above| + 1)
    ensures ScenarioRead(ParseLines(START, 1, above + ([raw] + below))) ==
            LaterRead(ScenarioRead(ParseLines(START, 1, above + below)), |above|)
  {
    InsertedAfter(st, |above|, raw, below);
    InsertedBelow(ParseLine, above, below, [raw] + below, st, 1 + |above|);
  }

  lemma Inserted(above: seq<string>, raw: string, below: seq<string>)
    requires AllOneLine(above) && Unread(raw) && (below != [] ==> !ContinuesAbove(below[0]))
    ensures ScenarioRead(ParseLines(START, 1, above + ([raw] + below))) ==
            LaterRead(ScenarioRead(ParseLines(START, 1, above + below)), |above|)
  {
    match ParseLines(START, 1, above)
    case Ok(st) =>
      ReadAbove(above, st);
      InsertedBelowRead(above, raw, below, st);
    case Err(_) => RefusedAbove(above, raw, below);
  }

  lemma {:induction false} ContradictionLater(steps: seq<Step>, m: nat)
    ensures FirstContradiction(LaterSteps(steps, m)) ==
            match FirstContradiction(steps)
            case Some(line) => Some(Later(line, m))
            case None => None
  {
    if steps != [] {
      ContradictionLater(steps[1..], m);
      assert LaterSteps(steps, m)[1..] == LaterSteps(steps[1..], m);
    }
  }

  /** What a text parses to, with one more line below line m. */
  function ParsedLater(r: Result<Scenario, ParseError>, m: nat): Result<Scenario, ParseError> {
    match r
    case Ok(sc) => Ok(LaterScenario(sc, m))
    case Err(e) => Err(if e.kind == NoSteps then e else LaterError(e, m))
  }

  lemma CheckedLater(sc: Scenario, m: nat)
    ensures Checked(LaterScenario(sc, m)) == ParsedLater(Checked(sc), m)
  {
    ContradictionLater(sc.steps, m);
  }

  /** A comment or a blank line can be put anywhere that is not directly above a `+`: the text is
      accepted or rejected as before, with the same scenario or the same error, and only the numbers of
      later lines change. */
  lemma UnreadLinesChangeNothing(text: string, text': string, above: seq<string>, raw: string, below: seq<string>)
    requires Lines(text) == above + below && Lines(text') == above + ([raw] + below) && Unread(raw)
    requires below != [] ==> !ContinuesAbove(below[0])
    ensures Parse(text') == ParsedLater(Parse(text), |above|)
  {
    forall i | 0 <= i < |above|
      ensures OneLine(above[i])
    {
      LinesHaveNoNewline(text, i);
      assert Lines(text)[i] == above[i];
    }
    Inserted(above, raw, below);
    ErrorKindsOfLines(START, 1, Lines(text));
    match ParseLines(START, 1, Lines(text))
    case Ok(st) => CheckedLater(st.scenario, |above|);
    case Err(_) =>
  }

  lemma {:induction false} ErrorKindsOfLines(st: State, n: nat, lines: seq<string>)
    ensures ParseLines(st, n, lines).Err? ==> ParseLines(st, n, lines).error.kind != NoSteps
    decreases |lines|
  {
    if lines != [] {
      LineErrorKind(st, n, lines[0]);
      if ParseLine(st, n, lines[0]).Ok? {
        ErrorKindsOfLines(ParseLine(st, n, lines[0]).value, n + 1, lines[1..]);
      }
    }
  }

  lemma ExpectErrorKind(s: Stated, d: Directive)
    ensures ExpectDirective(s, d) != Err(NoSteps)
  {
  }

  lemma DirectiveErrorKind(st: State, n: nat, d: Directive)
    ensures ParseDirective(st, n, d) != Err(NoSteps)
  {
    if st.scenario.steps != [] {
      ExpectErrorKind(Stated(LastStep(st.scenario).expected, st.exitSeen), d);
    }
  }

  lemma LineErrorKind(st: State, n: nat, raw: string)
    ensures ParseLine(st, n, raw).Err? ==> ParseLine(st, n, raw).error.kind != NoSteps
  {
    DirectiveErrorKind(st, n, SplitKeyword(StripCr(raw)));
  }
}
