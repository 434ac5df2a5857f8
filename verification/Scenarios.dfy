/** The line-oriented .clank scenario language: its syntax tree and its parser. */
module Scenarios {
  import opened Results
  import opened Texts
  import opened Seqs
  import opened Folds
  import Decimals

  datatype Backend = Native | Golem

  datatype Action = Eval(command: string) | Answer(text: string) | Abort

  datatype StreamExpect = StreamExpect(exact: Option<seq<string>>, contains: seq<string>, any: bool)

  datatype ExitExpect = Code(code: nat) | AnyExit | NonZero

  datatype Expectation = Expectation(
    stdout: StreamExpect,
    stderr: StreamExpect,
    exit: ExitExpect,
    prompt: Option<string>,
    choices: Option<seq<string>>)

  datatype Step = Step(line: nat, action: Action, expected: Expectation)

  datatype Scenario = Scenario(only: Option<Backend>, tags: seq<string>, steps: seq<Step>)

  const NO_STREAM := StreamExpect(None, [], false)
  const STRICT := Expectation(NO_STREAM, NO_STREAM, Code(0), None, None)

  datatype ErrorKind =
    | HeaderAfterStep | OnlyTwice | BadOnly | NoTag | UnknownHeader
    | EmptyRun | StrayContinuation | AnswerNeedsPayload | AbortTakesNoPayload
    | NoStepYet | NeedsPayload | NeedsSubstring | TakesNoPayload
    | ExitTwice | BadExit | PromptTwice | ChoicesTwice | EmptyChoice | UnknownDirective
    | NoSteps | AnyCombined
    | Panic // the parser's `unreachable!`

  datatype ParseError = ParseError(line: nat, kind: ErrorKind)

  // ---------- Splitting ----------

  function SplitOn(s: string, c: char): (parts: seq<string>)
    ensures parts != []
    decreases |s|
  {
    var i := IndexOf(s, c);
    if i == |s| then [s] else [s[..i]] + SplitOn(s[i + 1..], c)
  }

  /** A keyword, and everything after the first space; None when there is no space. */
  type Directive = (string, Option<string>)

  function SplitKeyword(line: string): Directive {
    var i := IndexOf(line, ' ');
    if i == |line| then (line, None) else (line[..i], Some(line[i + 1..]))
  }

  function OrEmpty(payload: Option<string>): string {
    match payload
    case Some(p) => p
    case None => ""
  }

  predicate IsBlank(s: string) {
    Trim(s) == ""
  }

  predicate IsDigit(c: char) {
    '0' <= c <= '9'
  }

  function DigitValue(c: char): nat
    requires IsDigit(c)
  {
    c as int - '0' as int
  }

  predicate AllDigits(s: string) {
    forall i :: 0 <= i < |s| ==> IsDigit(s[i])
  }

  function DigitValues(s: string): (ds: seq<nat>)
    requires AllDigits(s)
    ensures |ds| == |s|
  {
    seq(|s|, i requires 0 <= i < |s| => DigitValue(s[i]))
  }

  /** A decimal number 0-255, with an optional plus sign. */
  function ParseU8(s: string): Option<nat> {
    var digits := if |s| > 1 && s[0] == '+' then s[1..] else s;
    if digits == "" || !AllDigits(digits) then None
    else
      var n := Decimals.NumberOf(DigitValues(digits));
      if n > 255 then None else Some(n)
  }

  // ---------- Expectation directives ----------

  function Stream(e: Expectation, err: bool): StreamExpect {
    if err then e.stderr else e.stdout
  }

  function WithStream(e: Expectation, err: bool, s: StreamExpect): Expectation {
    if err then e.(stderr := s) else e.(stdout := s)
  }

  function PushExact(s: StreamExpect, line: string): StreamExpect {
    match s.exact
    case None => s.(exact := Some([line]))
    case Some(lines) => s.(exact := Some(lines + [line]))
  }

  function ParseExit(payload: string): Option<ExitExpect> {
    if payload == "any" then Some(AnyExit)
    else if payload == "nonzero" then Some(NonZero)
    else
      match ParseU8(payload)
      case None => None
      case Some(n) => Some(Code(n))
  }

  /** The current step's expectations, and whether it has stated `exit`. */
  datatype Stated = Stated(expected: Expectation, exitSeen: bool)

  function ExactDirective(s: Stated, err: bool, payload: Option<string>): Result<Stated, ErrorKind> {
    match payload
    case None => Err(NeedsPayload)
    case Some(line) => Ok(s.(expected := WithStream(s.expected, err, PushExact(Stream(s.expected, err), line))))
  }

  function ContainsDirective(s: Stated, err: bool, text: string): Result<Stated, ErrorKind> {
    var stream := Stream(s.expected, err);
    if text == "" then Err(NeedsSubstring)
    else Ok(s.(expected := WithStream(s.expected, err, stream.(contains := stream.contains + [text]))))
  }

  function AnyDirective(s: Stated, err: bool, text: string): Result<Stated, ErrorKind> {
    if !IsBlank(text) then Err(TakesNoPayload)
    else Ok(s.(expected := WithStream(s.expected, err, Stream(s.expected, err).(any := true))))
  }

  function ExitDirective(s: Stated, text: string): Result<Stated, ErrorKind> {
    if s.exitSeen then Err(ExitTwice)
    else
      match ParseExit(Trim(text))
      case None => Err(BadExit)
      case Some(x) => Ok(Stated(s.expected.(exit := x), true))
  }

  function PromptDirective(s: Stated, text: string): Result<Stated, ErrorKind> {
    if text == "" then Err(NeedsSubstring)
    else if s.expected.prompt.Some? then Err(PromptTwice)
    else Ok(s.(expected := s.expected.(prompt := Some(text))))
  }

  function ChoicesDirective(s: Stated, text: string): Result<Stated, ErrorKind> {
    if s.expected.choices.Some? then Err(ChoicesTwice)
    else
      var list := SplitOn(text, ',');
      if "" in list then Err(EmptyChoice) else Ok(s.(expected := s.expected.(choices := Some(list))))
  }

  function ExpectDirective(s: Stated, d: Directive): Result<Stated, ErrorKind> {
    var (keyword, payload) := d;
    var text := OrEmpty(payload);
    if keyword == "out" || keyword == "err" then ExactDirective(s, keyword == "err", payload)
    else if keyword == "out~" || keyword == "err~" then ContainsDirective(s, keyword == "err~", text)
    else if keyword == "out*" || keyword == "err*" then AnyDirective(s, keyword == "err*", text)
    else if keyword == "exit" then ExitDirective(s, text)
    else if keyword == "prompt~" then PromptDirective(s, text)
    else if keyword == "choices" then ChoicesDirective(s, text)
    else Err(UnknownDirective)
  }

  // ---------- The parser's state, line by line ----------

  datatype State = State(scenario: Scenario, payloadOpen: bool, exitSeen: bool)

  const START := State(Scenario(None, [], []), false, false)

  function AddStep(st: State, n: nat, action: Action): State {
    State(st.scenario.(steps := st.scenario.steps + [Step(n, action, STRICT)]), action.Eval?, false)
  }

  function LastStep(sc: Scenario): Step
    requires sc.steps != []
  {
    sc.steps[|sc.steps| - 1]
  }

  function WithLastStep(sc: Scenario, step: Step): Scenario
    requires sc.steps != []
  {
    sc.(steps := sc.steps[..|sc.steps| - 1] + [step])
  }

  function HeaderDirective(st: State, d: Directive): Result<State, ErrorKind> {
    var sc, (keyword, payload) := st.scenario, d;
    var text := Trim(OrEmpty(payload));
    if sc.steps != [] then Err(HeaderAfterStep)
    else if keyword == "@only" then
      if sc.only.Some? then Err(OnlyTwice)
      else if text == "native" then Ok(st.(scenario := sc.(only := Some(Native))))
      else if text == "golem" then Ok(st.(scenario := sc.(only := Some(Golem))))
      else Err(BadOnly)
    else if keyword == "@requires" then
      if text == "" then Err(NoTag) else Ok(st.(scenario := sc.(tags := sc.tags + [text])))
    else Err(UnknownHeader)
  }

  function ContinuePayload(st: State, text: string): Result<State, ErrorKind> {
    if !st.payloadOpen then Err(StrayContinuation)
    else if st.scenario.steps == [] then Err(Panic)
    else
      var last := LastStep(st.scenario);
      match last.action
      case Eval(p) => Ok(st.(scenario := WithLastStep(st.scenario, last.(action := Eval(p + "\n" + text)))))
      case _ => Err(Panic)
  }

  function StepExpectation(st: State, d: Directive): Result<State, ErrorKind> {
    if st.scenario.steps == [] then Err(NoStepYet)
    else
      var last := LastStep(st.scenario);
      match ExpectDirective(Stated(last.expected, st.exitSeen), d)
      case Err(kind) => Err(kind)
      case Ok(s) => Ok(State(WithLastStep(st.scenario, last.(expected := s.expected)), false, s.exitSeen))
  }

  function ParseDirective(st: State, n: nat, d: Directive): Result<State, ErrorKind> {
    var (keyword, payload) := d;
    if keyword != "" && keyword[0] == '@' then HeaderDirective(st, d)
    else if keyword == "run" then
      if IsBlank(OrEmpty(payload)) then Err(EmptyRun) else Ok(AddStep(st, n, Eval(OrEmpty(payload))))
    else if keyword == "+" then ContinuePayload(st, OrEmpty(payload))
    else if keyword == "answer" then
      if payload.None? then Err(AnswerNeedsPayload) else Ok(AddStep(st, n, Answer(payload.value)))
    else if keyword == "abort" then
      if !IsBlank(OrEmpty(payload)) then Err(AbortTakesNoPayload) else Ok(AddStep(st, n, Abort))
    else StepExpectation(st, d)
  }

  function ReadDirective(st: State, n: nat, d: Directive): Result<State, ParseError> {
    match ParseDirective(st, n, d)
    case Err(kind) => Err(ParseError(n, kind))
    case Ok(st') => Ok(st')
  }

  predicate IsComment(line: string) {
    TrimStart(line) != "" && TrimStart(line)[0] == '#'
  }

  function ParseLine(st: State, n: nat, raw: string): Result<State, ParseError> {
    var line := StripCr(raw);
    if IsBlank(line) || IsComment(line) then Ok(st.(payloadOpen := false))
    else ReadDirective(st, n, SplitKeyword(line))
  }

  /** Lines n, n + 1, ... of a file. */
  function ParseLines(st: State, n: nat, lines: seq<string>): Result<State, ParseError> {
    Fold(ParseLine, st, n, lines)
  }

  predicate Contradictory(s: StreamExpect) {
    s.any && (s.exact.Some? || s.contains != [])
  }

  predicate StepContradictory(step: Step) {
    Contradictory(step.expected.stdout) || Contradictory(step.expected.stderr)
  }

  function FirstContradiction(steps: seq<Step>): Option<nat> {
    if steps == [] then None
    else if StepContradictory(steps[0]) then Some(steps[0].line)
    else FirstContradiction(steps[1..])
  }

  function Checked(sc: Scenario): Result<Scenario, ParseError> {
    if sc.steps == [] then Err(ParseError(1, NoSteps))
    else
      match FirstContradiction(sc.steps)
      case Some(line) => Err(ParseError(line, AnyCombined))
      case None => Ok(sc)
  }

  function Parse(text: string): Result<Scenario, ParseError> {
    match ParseLines(START, 1, Lines(text))
    case Err(e) => Err(e)
    case Ok(st) => Checked(st.scenario)
  }

  method ParseScenario(text: string) returns (r: Result<Scenario, ParseError>)
    ensures r == Parse(text)
  {
    var st := START;
    var lines := Lines(text);
    SplitAt(lines, 0);
    for i := 0 to |lines|
      invariant ParseLines(st, i + 1, lines[i..]) == ParseLines(START, 1, lines)
    {
      FirstFrom(lines, i);
      var next := ParseLine(st, i + 1, lines[i]);
      if next.Err? {
        return Err(next.error);
      }
      st := next.value;
    }
    var steps := st.scenario.steps;
    if steps == [] {
      return Err(ParseError(1, NoSteps));
    }
    SplitAt(steps, 0);
    for i := 0 to |steps|
      invariant FirstContradiction(steps[i..]) == FirstContradiction(steps)
    {
      FirstFrom(steps, i);
      if StepContradictory(steps[i]) {
        return Err(ParseError(steps[i].line, AnyCombined));
      }
    }
    return Ok(st.scenario);
  }
}
