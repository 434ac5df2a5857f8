/** What single scenario lines do and which errors they give, said of the characters on the line. */
module ScenarioReadings {
  import opened Results
  import opened Texts
  import opened Seqs
  import opened Folds
  import opened Scenarios
  import opened ScenarioInvariants
  import opened ScenarioRoundTrip
  import Decimals

  // ---------- New steps, and what they expect if nothing is stated ----------

  /** The line of a keyword, a space, and text that does not end in a carriage return. */
  function Line(keyword: string, text: string): string {
    keyword + (" " + text)
  }

  predicate Plain(text: string) {
    text == "" || text[|text| - 1] != '\r'
  }

  predicate IsKeyword(keyword: string) {
    keyword != "" && ' ' !in keyword && !IsWhitespace(keyword[0]) && keyword[0] != '#'
  }

  lemma LineIsRead(st: State, n: nat, keyword: string, text: string)
    requires IsKeyword(keyword) && Plain(text)
    ensures ParseLine(st, n, Line(keyword, text)) == ReadDirective(st, n, (keyword, Some(text)))
  {
    var line := Line(keyword, text);
    assert line[|line| - 1] == if text == "" then ' ' else text[|text| - 1];
    assert StripCr(line) == line && line[0] == keyword[0];
    TrimEndKeepsFirst(line);
    KeywordSplits(keyword, text);
  }

  lemma KeywordSplits(keyword: string, text: string)
    requires ' ' !in keyword
    ensures SplitKeyword(Line(keyword, text)) == (keyword, Some(text))
  {
    var line := Line(keyword, text);
    IndexOfFirst(keyword, ' ', text);
    assert line == keyword + [' '] + text;
    SplitsBack(keyword, " " + text);
    CutAfter(keyword, " " + text, 1);
    assert (" " + text)[1..] == text;
  }

  lemma NotBlank(text: string, i: nat)
    requires i < |text| && !IsWhitespace(text[i])
    ensures !IsBlank(text)
  {
    if IsBlank(text) {
      BlankIsWhitespace(text, i);
    }
  }

  lemma {:induction false} TrimEndLeavesWhitespace(text: string, i: nat)
    requires |TrimEnd(text)| <= i < |text|
    ensures IsWhitespace(text[i])
    decreases |text|
  {
    if i < |text| - 1 {
      TrimEndLeavesWhitespace(text[..|text| - 1], i);
    }
  }

  lemma {:induction false} BlankIsWhitespace(text: string, i: nat)
    requires IsBlank(text) && i < |text|
    ensures IsWhitespace(text[i])
    decreases |text|
  {
    if IsWhitespace(text[0]) {
      if i > 0 {
        BlankIsWhitespace(text[1..], i - 1);
      }
    } else {
      TrimEndLeavesWhitespace(text, i);
    }
  }

  /** A step that expects no output, exit status 0 and no prompt. */
  function StrictStep(n: nat, action: Action): Step {
    var silent := StreamExpect(None, [], false);
    Step(n, action, Expectation(silent, silent, Code(0), None, None))
  }

  function Started(st: State, step: Step, payloadOpen: bool): State {
    State(st.scenario.(steps := st.scenario.steps + [step]), payloadOpen, false)
  }

  lemma RunIsStrict(st: State, n: nat, command: string)
    requires !IsBlank(command)
    ensures ReadDirective(st, n, ("run", Some(command))) == Ok(Started(st, StrictStep(n, Eval(command)), true))
  {
  }

  lemma AnswerIsStrict(st: State, n: nat, text: string)
    ensures ReadDirective(st, n, ("answer", Some(text))) == Ok(Started(st, StrictStep(n, Answer(text)), false))
  {
  }

  /** A `run` line with something on it starts a strict step that takes continuations. */
  lemma RunStartsStep(st: State, n: nat, command: string, i: nat)
    requires Plain(command) && i < |command| && !IsWhitespace(command[i])
    ensures ParseLine(st, n, Line("run", command)) == Ok(Started(st, StrictStep(n, Eval(command)), true))
  {
    LineIsRead(st, n, "run", command);
    NotBlank(command, i);
    RunIsStrict(st, n, command);
  }

  /** So does an `answer` line, also with nothing after the space, but it takes no continuations. */
  lemma AnswerStartsStep(st: State, n: nat, text: string)
    requires Plain(text)
    ensures ParseLine(st, n, Line("answer", text)) == Ok(Started(st, StrictStep(n, Answer(text)), false))
  {
    LineIsRead(st, n, "answer", text);
    AnswerIsStrict(st, n, text);
  }

  /** A step's exit status is 0 until it is stated. */
  ghost predicate StrictSoFar(st: State) {
    st.scenario.steps != [] && !st.exitSeen ==> LastStep(st.scenario).expected.exit == Code(0)
  }

  lemma ExpectKeepsExit(s: Stated, d: Directive)
    ensures ExpectDirective(s, d).Ok? && !ExpectDirective(s, d).value.exitSeen ==>
              !s.exitSeen && ExpectDirective(s, d).value.expected.exit == s.expected.exit
  {
  }

  lemma StepStaysStrict(st: State, d: Directive)
    requires StrictSoFar(st)
    ensures StepExpectation(st, d).Ok? ==> StrictSoFar(StepExpectation(st, d).value)
  {
    if st.scenario.steps != [] {
      ExpectKeepsExit(Stated(LastStep(st.scenario).expected, st.exitSeen), d);
    }
  }

  lemma DirectiveStaysStrict(st: State, n: nat, d: Directive)
    requires StrictSoFar(st)
    ensures ParseDirective(st, n, d).Ok? ==> StrictSoFar(ParseDirective(st, n, d).value)
  {
    StepStaysStrict(st, d);
  }

  lemma LineStaysStrict(st: State, n: nat, raw: string)
    requires StrictSoFar(st)
    ensures ParseLine(st, n, raw).Ok? ==> StrictSoFar(ParseLine(st, n, raw).value)
  {
    DirectiveStaysStrict(st, n, SplitKeyword(StripCr(raw)));
  }

  ghost function StrictAt(): (State, nat) -> bool {
    (st: State, i: nat) => StrictSoFar(st)
  }

  ghost function AnyError(): ParseError -> bool {
    (e: ParseError) => true
  }

  lemma LineKeepsStrict(lines: seq<string>, st: State, i: nat)
    requires i < |lines|
    ensures Keeps(ParseLine, lines, 1, StrictAt(), AnyError(), st, i)
  {
    if StrictSoFar(st) {
      LineStaysStrict(st, i + 1, lines[i]);
    }
  }

  /** After any accepted lines, a step that has not stated its exit status expects 0. */
  lemma StrictByDefault(lines: seq<string>)
    ensures ParseLines(START, 1, lines).Ok? ==> StrictSoFar(ParseLines(START, 1, lines).value)
  {
    forall st: State, i | 0 <= i < |lines|
      ensures Keeps(ParseLine, lines, 1, StrictAt(), AnyError(), st, i)
    {
      LineKeepsStrict(lines, st, i);
    }
    FoldKeeps(ParseLine, lines, 1, StrictAt(), AnyError(), START, 0);
    SplitAt(lines, 0);
  }

  // ---------- Exit codes ----------

  /** Characters 0x30 to 0x39 for the digits 0 to 9. */
  ghost predicate WritesDigits(text: string, digits: seq<nat>) {
    |text| == |digits| && forall i :: 0 <= i < |text| ==> digits[i] < 10 && text[i] as int == 0x30 + digits[i]
  }

  lemma WrittenDigits(text: string, digits: seq<nat>)
    requires WritesDigits(text, digits)
    ensures AllDigits(text) && DigitValues(text) == digits
  {
  }

  lemma SignedCodes(text: string, digits: seq<nat>, n: nat)
    requires text != "" && WritesDigits(text, digits) && Decimals.NumberOf(digits) == n
    ensures ParseU8(text) == ParseU8("+" + text) == if n <= 255 then Some(n) else None
  {
    WrittenDigits(text, digits);
    assert IsDigit(text[0]) && ("+" + text)[1..] == text;
  }

  lemma MinusIsRefused(text: string)
    ensures ParseU8("-" + text) == None
  {
    assert !IsDigit(("-" + text)[0]);
  }

  /** A plus sign is allowed; a larger number, a minus sign and no digit at all are not. */
  lemma ExitCodes(text: string, digits: seq<nat>)
    requires text != "" && WritesDigits(text, digits)
    ensures var n := Decimals.NumberOf(digits);
            ParseU8(text) == ParseU8("+" + text) == if n <= 255 then Some(n) else None
    ensures ParseU8("-" + text) == ParseU8("") == None
  {
    SignedCodes(text, digits, Decimals.NumberOf(digits));
    MinusIsRefused(text);
  }

  lemma ExitIsRead(s: Stated, left: string, text: string, right: string, exit: ExitExpect)
    requires AllWhitespace(left) && AllWhitespace(right) && Trimmed(text)
    requires ParseExit(text) == Some(exit) && !s.exitSeen
    ensures ExpectDirective(s, ("exit", Some(left + text + right))) == Ok(Stated(s.expected.(exit := exit), true))
  {
    TrimExactly(left, text, right);
  }

  /** `exit`, once in a step and with any whitespace around, takes a code, `any` or `nonzero`. */
  lemma ExitIsStated(s: Stated, left: string, right: string, text: string, digits: seq<nat>)
    requires AllWhitespace(left) && AllWhitespace(right) && !s.exitSeen
    requires text != "" && WritesDigits(text, digits) && Decimals.NumberOf(digits) <= 255
    ensures ExpectDirective(s, ("exit", Some(left + text + right))) ==
            Ok(Stated(s.expected.(exit := Code(Decimals.NumberOf(digits))), true))
    ensures ExpectDirective(s, ("exit", Some(left + "any" + right))) == Ok(Stated(s.expected.(exit := AnyExit), true))
    ensures ExpectDirective(s, ("exit", Some(left + "nonzero" + right))) ==
            Ok(Stated(s.expected.(exit := NonZero), true))
  {
    SignedCodes(text, digits, Decimals.NumberOf(digits));
    DigitsAreTrimmed(text, digits);
    ExitIsRead(s, left, text, right, Code(Decimals.NumberOf(digits)));
    ExitIsRead(s, left, "any", right, AnyExit);
    ExitIsRead(s, left, "nonzero", right, NonZero);
  }

  lemma DigitsAreTrimmed(text: string, digits: seq<nat>)
    requires text != "" && WritesDigits(text, digits)
    ensures Trimmed(text) && text != "any" && text != "nonzero"
  {
  }

  // ---------- Headers ----------

  lemma OnlyIsRead(st: State, n: nat, left: string, right: string, text: string, backend: Backend)
    requires AllWhitespace(left) && AllWhitespace(right) && Trimmed(text)
    requires text == (if backend.Native? then "native" else "golem")
    requires st.scenario.steps == [] && st.scenario.only.None?
    ensures ParseDirective(st, n, ("@only", Some(left + text + right))) ==
            Ok(st.(scenario := st.scenario.(only := Some(backend))))
  {
    TrimExactly(left, text, right);
  }

  /** Above the steps, `@only` names one backend and each `@requires` adds one tag, whatever the whitespace
      around them. */
  lemma HeadersAreStated(st: State, n: nat, left: string, right: string, tag: string)
    requires AllWhitespace(left) && AllWhitespace(right) && Trimmed(tag) && tag != "" && st.scenario.steps == []
    ensures st.scenario.only.None? ==>
              ParseDirective(st, n, ("@only", Some(left + "native" + right))) ==
              Ok(st.(scenario := st.scenario.(only := Some(Native)))) &&
              ParseDirective(st, n, ("@only", Some(left + "golem" + right))) ==
              Ok(st.(scenario := st.scenario.(only := Some(Golem))))
    ensures ParseDirective(st, n, ("@requires", Some(left + tag + right))) ==
            Ok(st.(scenario := st.scenario.(tags := st.scenario.tags + [tag])))
  {
    if st.scenario.only.None? {
      OnlyIsRead(st, n, left, right, "native", Native);
      OnlyIsRead(st, n, left, right, "golem", Golem);
    }
    TrimExactly(left, tag, right);
  }

  // ---------- Output ----------

  /** What is stated of an output stream, and one thing more. */
  ghost predicate Adds(before: StreamExpect, after: StreamExpect, lines: seq<string>, parts: seq<string>, any: bool) {
    after.exact == (if lines == [] then before.exact
                    else Some((if before.exact.Some? then before.exact.value else []) + lines)) &&
    after.contains == before.contains + parts && after.any == (before.any || any)
  }

  ghost predicate OutAdds(s: Stated, d: Directive, lines: seq<string>, parts: seq<string>, any: bool) {
    exists after :: Adds(s.expected.stdout, after, lines, parts, any) &&
                    ExpectDirective(s, d) == Ok(s.(expected := s.expected.(stdout := after)))
  }

  ghost predicate ErrAdds(s: Stated, d: Directive, lines: seq<string>, parts: seq<string>, any: bool) {
    exists after :: Adds(s.expected.stderr, after, lines, parts, any) &&
                    ExpectDirective(s, d) == Ok(s.(expected := s.expected.(stderr := after)))
  }

  /** Each keyword speaks of its own stream: one more exact line, one more part, or anything at all. */
  lemma OutputsAreStated(s: Stated, line: string, part: string, payload: Option<string>)
    requires part != "" && IsBlank(OrEmpty(payload))
    ensures OutAdds(s, ("out", Some(line)), [line], [], false) && ErrAdds(s, ("err", Some(line)), [line], [], false)
    ensures OutAdds(s, ("out~", Some(part)), [], [part], false) && ErrAdds(s, ("err~", Some(part)), [], [part], false)
    ensures OutAdds(s, ("out*", payload), [], [], true) && ErrAdds(s, ("err*", payload), [], [], true)
  {
    OutIsStated(s, line, part, payload);
    ErrIsStated(s, line, part, payload);
  }

  lemma OutIsStated(s: Stated, line: string, part: string, payload: Option<string>)
    requires part != "" && IsBlank(OrEmpty(payload))
    ensures OutAdds(s, ("out", Some(line)), [line], [], false) && OutAdds(s, ("out~", Some(part)), [], [part], false)
    ensures OutAdds(s, ("out*", payload), [], [], true)
  {
    var before := s.expected.stdout;
    EmptyUnit([line]);
    EmptyUnit(before.contains);
    assert Adds(before, PushExact(before, line), [line], [], false);
    assert Adds(before, before.(contains := before.contains + [part]), [], [part], false);
    assert Adds(before, before.(any := true), [], [], true);
  }

  lemma ErrIsStated(s: Stated, line: string, part: string, payload: Option<string>)
    requires part != "" && IsBlank(OrEmpty(payload))
    ensures ErrAdds(s, ("err", Some(line)), [line], [], false) && ErrAdds(s, ("err~", Some(part)), [], [part], false)
    ensures ErrAdds(s, ("err*", payload), [], [], true)
  {
    var before := s.expected.stderr;
    EmptyUnit([line]);
    EmptyUnit(before.contains);
    assert Adds(before, PushExact(before, line), [line], [], false);
    assert Adds(before, before.(contains := before.contains + [part]), [], [part], false);
    assert Adds(before, before.(any := true), [], [], true);
  }

  // ---------- Which error ----------

  lemma HeaderErrors(st: State, n: nat, payload: Option<string>, other: string)
    requires other != "" && other[0] == '@'
    ensures st.scenario.steps != [] ==> ParseDirective(st, n, (other, payload)) == Err(HeaderAfterStep)
    ensures st.scenario.steps == [] && st.scenario.only.Some? ==>
              ParseDirective(st, n, ("@only", payload)) == Err(OnlyTwice)
    ensures st.scenario.steps == [] && st.scenario.only.None? &&
            Trim(OrEmpty(payload)) != "native" && Trim(OrEmpty(payload)) != "golem" ==>
              ParseDirective(st, n, ("@only", payload)) == Err(BadOnly)
    ensures st.scenario.steps == [] && IsBlank(OrEmpty(payload)) ==>
              ParseDirective(st, n, ("@requires", payload)) == Err(NoTag)
    ensures st.scenario.steps == [] && other != "@only" && other != "@requires" ==>
              ParseDirective(st, n, (other, payload)) == Err(UnknownHeader)
  {
  }

  lemma ActionErrors(st: State, n: nat, payload: Option<string>)
    ensures IsBlank(OrEmpty(payload)) ==> ParseDirective(st, n, ("run", payload)) == Err(EmptyRun)
    ensures !st.payloadOpen ==> ParseDirective(st, n, ("+", payload)) == Err(StrayContinuation)
    ensures ParseDirective(st, n, ("answer", None)) == Err(AnswerNeedsPayload)
    ensures !IsBlank(OrEmpty(payload)) ==> ParseDirective(st, n, ("abort", payload)) == Err(AbortTakesNoPayload)
  {
  }

  predicate IsExpectationKeyword(keyword: string) {
    keyword == "out" || keyword == "err" || keyword == "out~" || keyword == "err~" || keyword == "out*" ||
    keyword == "err*" || keyword == "exit" || keyword == "prompt~" || keyword == "choices"
  }

  lemma ExpectationErrors(s: Stated, payload: Option<string>)
    ensures ExpectDirective(s, ("out", None)) == ExpectDirective(s, ("err", None)) == Err(NeedsPayload)
    ensures OrEmpty(payload) == "" ==>
              ExpectDirective(s, ("out~", payload)) == ExpectDirective(s, ("err~", payload)) == Err(NeedsSubstring)
    ensures !IsBlank(OrEmpty(payload)) ==>
              ExpectDirective(s, ("out*", payload)) == ExpectDirective(s, ("err*", payload)) == Err(TakesNoPayload)
    ensures s.exitSeen ==> ExpectDirective(s, ("exit", payload)) == Err(ExitTwice)
    ensures !s.exitSeen && ParseExit(Trim(OrEmpty(payload))).None? ==>
              ExpectDirective(s, ("exit", payload)) == Err(BadExit)
  {
  }

  lemma PromptErrors(s: Stated, payload: Option<string>, other: string)
    ensures OrEmpty(payload) == "" ==> ExpectDirective(s, ("prompt~", payload)) == Err(NeedsSubstring)
    ensures OrEmpty(payload) != "" && s.expected.prompt.Some? ==>
              ExpectDirective(s, ("prompt~", payload)) == Err(PromptTwice)
    ensures s.expected.choices.Some? ==> ExpectDirective(s, ("choices", payload)) == Err(ChoicesTwice)
    ensures s.expected.choices.None? && "" in SplitOn(OrEmpty(payload), ',') ==>
              ExpectDirective(s, ("choices", payload)) == Err(EmptyChoice)
    ensures !IsExpectationKeyword(other) ==> ExpectDirective(s, (other, payload)) == Err(UnknownDirective)
  {
  }

  /** An expectation, or an unknown directive, before any step. */
  lemma NoStepError(st: State, n: nat, d: Directive)
    requires st.scenario.steps == [] && !(d.0 != "" && d.0[0] == '@')
    requires d.0 != "run" && d.0 != "+" && d.0 != "answer" && d.0 != "abort"
    ensures ParseDirective(st, n, d) == Err(NoStepYet)
  {
  }
}
