/** Printing a scenario, and why parsing gives exactly that scenario back. */
module ScenarioRoundTrip {
  import opened Results
  import opened Texts
  import opened Seqs
  import opened Folds
  import opened Scenarios
  import opened ScenarioInvariants
  import Decimals

  // ---------- The printer: directives ----------

  function JoinRest(parts: seq<string>, c: char): string {
    if parts == [] then "" else [c] + parts[0] + JoinRest(parts[1..], c)
  }

  function Join(parts: seq<string>, c: char): string
    requires parts != []
  {
    parts[0] + JoinRest(parts[1..], c)
  }

  function DigitChar(d: nat): char
    requires d < 10
  {
    ('0' as int + d) as char
  }

  function DecimalText(n: nat): string {
    var ds := Decimals.Digits(n);
    seq(|ds|, i requires 0 <= i < |ds| => DigitChar(ds[i]))
  }

  /** One directive with the same keyword for each payload. */
  function Each(keyword: string, payloads: seq<string>): seq<Directive> {
    if payloads == [] then [] else [(keyword, Some(payloads[0]))] + Each(keyword, payloads[1..])
  }

  function ActionDirectives(a: Action): seq<Directive> {
    match a
    case Eval(command) =>
      var parts := SplitOn(command, '\n');
      [("run", Some(parts[0]))] + Each("+", parts[1..])
    case Answer(text) => [("answer", Some(text))]
    case Abort => [("abort", None)]
  }

  function OrNone(lines: Option<seq<string>>): seq<string> {
    match lines
    case Some(list) => list
    case None => []
  }

  function StreamName(err: bool): string {
    if err then "err" else "out"
  }

  function ContainsName(err: bool): string {
    if err then "err~" else "out~"
  }

  function AnyName(err: bool): string {
    if err then "err*" else "out*"
  }

  function AnyDirectives(any: bool, err: bool): seq<Directive> {
    if any then [(AnyName(err), None)] else []
  }

  function StreamDirectives(s: StreamExpect, err: bool): seq<Directive> {
    Each(StreamName(err), OrNone(s.exact)) + (Each(ContainsName(err), s.contains) + AnyDirectives(s.any, err))
  }

  function ExitText(x: ExitExpect): string {
    match x
    case Code(n) => DecimalText(n)
    case AnyExit => "any"
    case NonZero => "nonzero"
  }

  function PromptDirectives(prompt: Option<string>): seq<Directive> {
    match prompt
    case Some(text) => [("prompt~", Some(text))]
    case None => []
  }

  function ChoicesDirectives(choices: Option<seq<string>>): seq<Directive> {
    match choices
    case Some(list) => if list == [] then [] else [("choices", Some(Join(list, ',')))]
    case None => []
  }

  function TailDirectives(e: Expectation): seq<Directive> {
    [("exit", Some(ExitText(e.exit)))] + (PromptDirectives(e.prompt) + ChoicesDirectives(e.choices))
  }

  function ExpectDirectives(e: Expectation): seq<Directive> {
    StreamDirectives(e.stdout, false) + (StreamDirectives(e.stderr, true) + TailDirectives(e))
  }

  function StepDirectives(step: Step): seq<Directive> {
    ActionDirectives(step.action) + ExpectDirectives(step.expected)
  }

  type Printer = Step -> seq<Directive>

  function PrintSteps(show: Printer, steps: seq<Step>): seq<Directive> {
    if steps == [] then [] else show(steps[0]) + PrintSteps(show, steps[1..])
  }

  function OnlyDirectives(only: Option<Backend>): seq<Directive> {
    match only
    case Some(Native) => [("@only", Some("native"))]
    case Some(Golem) => [("@only", Some("golem"))]
    case None => []
  }

  function HeaderDirectives(sc: Scenario): seq<Directive> {
    OnlyDirectives(sc.only) + Each("@requires", sc.tags)
  }

  // ---------- The printer: text ----------

  function RenderDirective(d: Directive): string {
    match d.1
    case Some(payload) => d.0 + " " + payload
    case None => d.0
  }

  /** A trailing carriage return survives the reader's two strips behind two more. */
  function Guarded(line: string): string {
    if line != "" && line[|line| - 1] == '\r' then line + "\r\r" else line
  }

  function RenderAll(ds: seq<Directive>): seq<string> {
    if ds == [] then [] else [Guarded(RenderDirective(ds[0]))] + RenderAll(ds[1..])
  }

  function Print(sc: Scenario): string {
    Unlines(RenderAll(HeaderDirectives(sc) + PrintSteps(StepDirectives, sc.steps)))
  }

  /** The steps with the line numbers that printing gives them. */
  function Numbered(show: Printer, steps: seq<Step>, n: nat): seq<Step> {
    if steps == [] then []
    else [steps[0].(line := n)] + Numbered(show, steps[1..], n + |show(steps[0])|)
  }

  function Renumbered(sc: Scenario): Scenario {
    sc.(steps := Numbered(StepDirectives, sc.steps, 1 + |HeaderDirectives(sc)|))
  }

  // ---------- Parsing directives ----------

  type Reader = (State, nat, Directive) -> Result<State, ParseError>

  function ParseDirectives(st: State, n: nat, ds: seq<Directive>): Result<State, ParseError> {
    Fold(ReadDirective, st, n, ds)
  }

  /** A directive whose line reads back as that directive. */
  predicate Printable(d: Directive) {
    d.0 != "" && ' ' !in d.0 && OneLine(d.0) && !IsWhitespace(d.0[0]) && d.0[0] != '#' && OneLine(OrEmpty(d.1))
  }

  ghost predicate AllPrintable(ds: seq<Directive>) {
    forall i :: 0 <= i < |ds| ==> Printable(ds[i])
  }

  lemma SplitRendered(d: Directive)
    requires Printable(d)
    ensures SplitKeyword(RenderDirective(d)) == d
  {
    match d.1
    case None => IndexOfFirst(d.0, ' ', "");
    case Some(payload) =>
      IndexOfFirst(d.0, ' ', payload);
      var line := RenderDirective(d);
      assert line == d.0 + [' '] + payload;
      assert line[..|d.0|] == d.0 && line[|d.0| + 1..] == payload;
  }

  lemma GuardedStrips(line: string)
    ensures StripCr(StripCr(Guarded(line))) == line
  {
  }

  lemma {:induction false} TrimEndKeepsFirst(s: string)
    requires s != "" && !IsWhitespace(s[0])
    ensures TrimEnd(s) != ""
  {
    if IsWhitespace(s[|s| - 1]) {
      TrimEndKeepsFirst(s[..|s| - 1]);
    }
  }

  lemma RenderedIsDirective(st: State, n: nat, d: Directive)
    requires Printable(d)
    ensures ParseLine(st, n, StripCr(Guarded(RenderDirective(d)))) ==
            ReadDirective(st, n, d)
  {
    var line := RenderDirective(d);
    GuardedStrips(line);
    SplitRendered(d);
    assert line[0] == d.0[0];
    TrimEndKeepsFirst(line);
  }

  lemma RenderedIsOneLine(d: Directive)
    requires Printable(d)
    ensures OneLine(Guarded(RenderDirective(d)))
  {
  }

  lemma {:induction false} ParseRendered(st: State, n: nat, ds: seq<Directive>)
    requires AllPrintable(ds)
    ensures ParseLines(st, n, Lines(Unlines(RenderAll(ds)))) == ParseDirectives(st, n, ds)
    decreases |ds|
  {
    if ds != [] {
      var line, rest := Guarded(RenderDirective(ds[0])), Unlines(RenderAll(ds[1..]));
      RenderedIsOneLine(ds[0]);
      LinesOfFirst(line, rest);
      assert Unlines(RenderAll(ds)) == line + "\n" + rest;
      RenderedIsDirective(st, n, ds[0]);
      match ParseDirective(st, n, ds[0])
      case Err(_) =>
      case Ok(st') => ParseRendered(st', n + 1, ds[1..]);
    }
  }

  // ---------- Expectations ----------

  function FoldExpect(s: Stated, ds: seq<Directive>): Result<Stated, ErrorKind>
    decreases |ds|
  {
    if ds == [] then Ok(s)
    else
      var r := ExpectDirective(s, ds[0]);
      if r.Err? then r else FoldExpect(r.value, ds[1..])
  }

  lemma {:induction false} ExpectBoth(s: Stated, a: seq<Directive>, b: seq<Directive>, mid: Stated)
    requires FoldExpect(s, a) == Ok(mid)
    ensures FoldExpect(s, a + b) == FoldExpect(mid, b)
    decreases |a|
  {
    if a == [] {
      EmptyUnit(b);
    } else {
      FirstOfConcat(a, b);
      ExpectBoth(ExpectDirective(s, a[0]).value, a[1..], b, mid);
    }
  }

  lemma OneExpect(s: Stated, d: Directive)
    ensures FoldExpect(s, [d]) == ExpectDirective(s, d)
  {
  }

  function WithExact(s: Stated, err: bool, lines: seq<string>): Stated {
    if lines == [] then s
    else
      var stream := Stream(s.expected, err);
      s.(expected := WithStream(s.expected, err, stream.(exact := Some(OrNone(stream.exact) + lines))))
  }

  lemma ExactStep(s: Stated, err: bool, line: string)
    ensures ExpectDirective(s, (StreamName(err), Some(line))) == Ok(WithExact(s, err, [line]))
  {
    EmptyUnit([line]);
  }

  lemma WithExactTwice(s: Stated, err: bool, line: string, lines: seq<string>)
    ensures WithExact(WithExact(s, err, [line]), err, lines) == WithExact(s, err, [line] + lines)
  {
    Reassociate(OrNone(Stream(s.expected, err).exact), [line], lines);
    if lines == [] {
      EmptyUnit([line]);
    }
  }

  lemma {:induction false} FoldExact(s: Stated, err: bool, lines: seq<string>)
    ensures FoldExpect(s, Each(StreamName(err), lines)) == Ok(WithExact(s, err, lines))
    decreases |lines|
  {
    if lines != [] {
      ExactStep(s, err, lines[0]);
      FoldExact(WithExact(s, err, [lines[0]]), err, lines[1..]);
      WithExactTwice(s, err, lines[0], lines[1..]);
      assert [lines[0]] + lines[1..] == lines;
    }
  }

  function WithContains(s: Stated, err: bool, texts: seq<string>): Stated {
    s.(expected := WithStream(s.expected, err,
                              Stream(s.expected, err).(contains := Stream(s.expected, err).contains + texts)))
  }

  lemma {:induction false} FoldContains(s: Stated, err: bool, texts: seq<string>)
    requires forall i :: 0 <= i < |texts| ==> texts[i] != ""
    ensures FoldExpect(s, Each(ContainsName(err), texts)) == Ok(WithContains(s, err, texts))
    decreases |texts|
  {
    var before := Stream(s.expected, err).contains;
    if texts == [] {
      EmptyUnit(before);
    } else {
      assert ExpectDirective(s, (ContainsName(err), Some(texts[0]))) == Ok(WithContains(s, err, [texts[0]]));
      FoldContains(WithContains(s, err, [texts[0]]), err, texts[1..]);
      Reassociate(before, [texts[0]], texts[1..]);
      assert [texts[0]] + texts[1..] == texts;
    }
  }

  lemma FoldAny(s: Stated, err: bool, any: bool)
    requires !Stream(s.expected, err).any
    ensures FoldExpect(s, AnyDirectives(any, err)) ==
            Ok(s.(expected := WithStream(s.expected, err, Stream(s.expected, err).(any := any))))
  {
  }

  /** A stream's directives, read from a step that has said nothing about it, give it back. */
  lemma FoldStream(s: Stated, err: bool, stream: StreamExpect)
    requires GoodStream(stream) && Stream(s.expected, err) == NO_STREAM
    ensures FoldExpect(s, StreamDirectives(stream, err)) == Ok(s.(expected := WithStream(s.expected, err, stream)))
  {
    var s1 := WithExact(s, err, OrNone(stream.exact));
    var s2 := WithContains(s1, err, stream.contains);
    var exact, contains := Each(StreamName(err), OrNone(stream.exact)), Each(ContainsName(err), stream.contains);
    StreamRebuilt(s, err, stream);
    FoldExact(s, err, OrNone(stream.exact));
    FoldContains(s1, err, stream.contains);
    FoldAny(s2, err, stream.any);
    ExpectBoth(s1, contains, AnyDirectives(stream.any, err), s2);
    ExpectBoth(s, exact, contains + AnyDirectives(stream.any, err), s1);
  }

  lemma StreamRebuilt(s: Stated, err: bool, stream: StreamExpect)
    requires GoodStream(stream) && Stream(s.expected, err) == NO_STREAM
    ensures var s2 := WithContains(WithExact(s, err, OrNone(stream.exact)), err, stream.contains);
            !Stream(s2.expected, err).any &&
            s2.(expected := WithStream(s2.expected, err, Stream(s2.expected, err).(any := stream.any))) ==
            s.(expected := WithStream(s.expected, err, stream))
  {
    EmptyUnit(OrNone(stream.exact));
    EmptyUnit(stream.contains);
  }

  // ---------- Exit status and choices ----------

  lemma DecimalTextReadsBack(n: nat)
    ensures var s := DecimalText(n);
            s != "" && AllDigits(s) && DigitValues(s) == Decimals.Digits(n)
  {
  }

  lemma ParseU8Decimal(n: nat)
    requires n <= 255
    ensures ParseU8(DecimalText(n)) == Some(n)
  {
    DecimalTextReadsBack(n);
    Decimals.DigitsRoundTrip(n);
  }

  lemma DecimalIsNoWord(n: nat)
    ensures var s := DecimalText(n); Trim(s) == s && s != "any" && s != "nonzero"
  {
  }

  lemma ExitReadsBack(x: ExitExpect)
    requires x.Code? ==> x.code <= 255
    ensures ParseExit(Trim(ExitText(x))) == Some(x)
  {
    match x
    case Code(n) =>
      DecimalIsNoWord(n);
      ParseU8Decimal(n);
    case AnyExit => assert TrimStart("any") == "any" && TrimEnd("any") == "any";
    case NonZero => assert TrimStart("nonzero") == "nonzero" && TrimEnd("nonzero") == "nonzero";
  }

  lemma {:induction false} SplitOfJoin(parts: seq<string>, c: char)
    requires parts != [] && forall i :: 0 <= i < |parts| ==> c !in parts[i]
    ensures SplitOn(Join(parts, c), c) == parts
    decreases |parts|
  {
    IndexOfFirst(parts[0], c, "");
    if |parts| == 1 {
      EmptyUnit(parts[0]);
      assert parts == [parts[0]];
    } else {
      var rest := Join(parts[1..], c);
      assert JoinRest(parts[1..], c) == [c] + parts[1] + JoinRest(parts[2..], c);
      assert parts[1..][1..] == parts[2..];
      Reassociate([c], parts[1], JoinRest(parts[2..], c));
      Reassociate(parts[0], [c], rest);
      assert Join(parts, c) == parts[0] + [c] + rest;
      SplitOnConcat(parts[0], c, rest);
      SplitOfJoin(parts[1..], c);
      assert [parts[0]] + parts[1..] == parts;
    }
  }

  lemma {:induction false} JoinOfSplit(s: string, c: char)
    ensures Join(SplitOn(s, c), c) == s
    decreases |s|
  {
    var i := IndexOf(s, c);
    if i == |s| {
      EmptyUnit(s);
    } else {
      var rest := SplitOn(s[i + 1..], c);
      JoinOfSplit(s[i + 1..], c);
      JoinFirst(s[..i], rest, c);
      CutAt(s, i);
    }
  }

  lemma JoinFirst(first: string, rest: seq<string>, c: char)
    requires rest != []
    ensures Join([first] + rest, c) == first + ([c] + Join(rest, c))
  {
  }

  // ---------- All the expectations of a step ----------

  lemma FoldPrompt(s: Stated, prompt: Option<string>)
    requires s.expected.prompt.None? && (prompt.Some? ==> prompt.value != "")
    ensures FoldExpect(s, PromptDirectives(prompt)) == Ok(s.(expected := s.expected.(prompt := prompt)))
  {
  }

  lemma FoldChoices(s: Stated, choices: Option<seq<string>>)
    requires s.expected.choices.None? && (choices.Some? ==> GoodChoices(choices.value))
    ensures FoldExpect(s, ChoicesDirectives(choices)) == Ok(s.(expected := s.expected.(choices := choices)))
  {
    if choices.Some? {
      SplitOfJoin(choices.value, ',');
      OneExpect(s, ("choices", Some(Join(choices.value, ','))));
    } else {
      assert FoldExpect(s, []) == Ok(s);
    }
  }

  lemma FoldExit(s: Stated, x: ExitExpect)
    requires !s.exitSeen && (x.Code? ==> x.code <= 255)
    ensures FoldExpect(s, [("exit", Some(ExitText(x)))]) == Ok(Stated(s.expected.(exit := x), true))
  {
    ExitReadsBack(x);
    OneExpect(s, ("exit", Some(ExitText(x))));
  }

  lemma FoldTail(s: Stated, e: Expectation)
    requires GoodExpectation(e) && s == Stated(STRICT.(stdout := e.stdout, stderr := e.stderr), false)
    ensures FoldExpect(s, TailDirectives(e)) == Ok(Stated(e, true))
  {
    var s1 := Stated(s.expected.(exit := e.exit), true);
    var s2 := s1.(expected := s1.expected.(prompt := e.prompt));
    FoldExit(s, e.exit);
    FoldPrompt(s1, e.prompt);
    FoldChoices(s2, e.choices);
    ExpectBoth(s1, PromptDirectives(e.prompt), ChoicesDirectives(e.choices), s2);
    ExpectBoth(s, [("exit", Some(ExitText(e.exit)))], PromptDirectives(e.prompt) + ChoicesDirectives(e.choices), s1);
  }

  lemma FoldAllExpectations(e: Expectation)
    requires GoodExpectation(e)
    ensures FoldExpect(Stated(STRICT, false), ExpectDirectives(e)) == Ok(Stated(e, true))
  {
    var s0 := Stated(STRICT, false);
    var s1 := s0.(expected := STRICT.(stdout := e.stdout));
    var s2 := s0.(expected := STRICT.(stdout := e.stdout, stderr := e.stderr));
    var tail := TailDirectives(e);
    FoldStream(s0, false, e.stdout);
    FoldStream(s1, true, e.stderr);
    FoldTail(s2, e);
    ExpectBoth(s1, StreamDirectives(e.stderr, true), tail, s2);
    ExpectBoth(s0, StreamDirectives(e.stdout, false), StreamDirectives(e.stderr, true) + tail, s1);
  }

  // ---------- One step ----------

  /** A directive that can only be an expectation. */
  predicate ExpectKeyword(keyword: string) {
    keyword != "" && keyword[0] != '@' && keyword != "run" && keyword != "+" &&
    keyword != "answer" && keyword != "abort"
  }

  ghost predicate AllExpectations(ds: seq<Directive>) {
    forall i :: 0 <= i < |ds| ==> ExpectKeyword(ds[i].0)
  }

  lemma ReplaceLastTwice(sc: Scenario, a: Step, b: Step)
    requires sc.steps != []
    ensures WithLastStep(sc, a).steps != [] && LastStep(WithLastStep(sc, a)) == a
    ensures WithLastStep(WithLastStep(sc, a), b) == WithLastStep(sc, b)
  {
  }

  lemma {:induction false} ParseExpectations(st: State, n: nat, ds: seq<Directive>)
    requires st.scenario.steps != [] && ds != [] && AllExpectations(ds)
    requires FoldExpect(Stated(LastStep(st.scenario).expected, st.exitSeen), ds).Ok?
    ensures var last := LastStep(st.scenario);
            var s := FoldExpect(Stated(last.expected, st.exitSeen), ds).value;
            ParseDirectives(st, n, ds) ==
            Ok(State(WithLastStep(st.scenario, last.(expected := s.expected)), false, s.exitSeen))
    decreases |ds|
  {
    var last := LastStep(st.scenario);
    var s1 := ExpectDirective(Stated(last.expected, st.exitSeen), ds[0]).value;
    var st1 := State(WithLastStep(st.scenario, last.(expected := s1.expected)), false, s1.exitSeen);
    assert ParseDirective(st, n, ds[0]) == Ok(st1);
    if |ds| == 1 {
      assert ds[1..] == [] && ParseDirectives(st1, n + 1, []) == Ok(st1) && FoldExpect(s1, []) == Ok(s1);
    } else {
      ReplaceLastTwice(st.scenario, last.(expected := s1.expected), last);
      ParseExpectations(st1, n + 1, ds[1..]);
      var s := FoldExpect(s1, ds[1..]).value;
      ReplaceLastTwice(st.scenario, last.(expected := s1.expected), last.(expected := s.expected));
    }
  }

  lemma {:induction false} EachExpectation(keyword: string, payloads: seq<string>)
    requires ExpectKeyword(keyword)
    ensures AllExpectations(Each(keyword, payloads))
  {
    if payloads != [] {
      EachExpectation(keyword, payloads[1..]);
    }
  }

  lemma ExpectationsConcat(a: seq<Directive>, b: seq<Directive>)
    requires AllExpectations(a) && AllExpectations(b)
    ensures AllExpectations(a + b)
  {
  }

  lemma StreamsAreExpectations(s: StreamExpect, err: bool)
    ensures AllExpectations(StreamDirectives(s, err))
  {
    EachExpectation(StreamName(err), OrNone(s.exact));
    EachExpectation(ContainsName(err), s.contains);
    ExpectationsConcat(Each(ContainsName(err), s.contains), AnyDirectives(s.any, err));
    ExpectationsConcat(Each(StreamName(err), OrNone(s.exact)),
                       Each(ContainsName(err), s.contains) + AnyDirectives(s.any, err));
  }

  lemma TailIsExpectations(e: Expectation)
    ensures AllExpectations(TailDirectives(e))
  {
  }

  lemma ExpectDirectivesAreExpectations(e: Expectation)
    ensures ExpectDirectives(e) != [] && AllExpectations(ExpectDirectives(e))
  {
    var tail := TailDirectives(e);
    StreamsAreExpectations(e.stdout, false);
    StreamsAreExpectations(e.stderr, true);
    TailIsExpectations(e);
    ExpectationsConcat(StreamDirectives(e.stderr, true), tail);
    ExpectationsConcat(StreamDirectives(e.stdout, false), StreamDirectives(e.stderr, true) + tail);
  }

  lemma ContinueStep(st: State, k: nat, p: string, text: string)
    ensures ContinuePayload(AddStep(st, k, Eval(p)), text) == Ok(AddStep(st, k, Eval(p + "\n" + text)))
  {
  }

  lemma {:induction false} ContinueParses(st: State, k: nat, n: nat, p: string, parts: seq<string>)
    ensures ParseDirectives(AddStep(st, k, Eval(p)), n, Each("+", parts)) ==
            Ok(AddStep(st, k, Eval(p + JoinRest(parts, '\n'))))
    decreases |parts|
  {
    if parts == [] {
      EmptyUnit(p);
    } else {
      ContinueStep(st, k, p, parts[0]);
      ContinueParses(st, k, n + 1, p + "\n" + parts[0], parts[1..]);
      Reassociate(p, ['\n'], parts[0]);
      Reassociate(p, ['\n'] + parts[0], JoinRest(parts[1..], '\n'));
    }
  }

  lemma ActionParses(st: State, n: nat, action: Action)
    requires GoodAction(action)
    ensures ParseDirectives(st, n, ActionDirectives(action)) == Ok(AddStep(st, n, action))
  {
    match action
    case Eval(command) =>
      var parts := SplitOn(command, '\n');
      JoinOfSplit(command, '\n');
      ContinueParses(st, n, n + 1, parts[0], parts[1..]);
      FirstOfConcat([("run", Some(parts[0]))], Each("+", parts[1..]));
      EmptyUnit(Each("+", parts[1..]));
    case Answer(text) =>
      OneDirective(st, n, ("answer", Some(text)));
    case Abort =>
      assert IsBlank("");
      OneDirective(st, n, ("abort", None));
  }

  lemma OneDirective(st: State, n: nat, d: Directive)
    requires ParseDirective(st, n, d).Ok?
    ensures ParseDirectives(st, n, [d]) == Ok(ParseDirective(st, n, d).value)
  {
    var next := ParseDirective(st, n, d).value;
    assert [d][1..] == [] && Fold(ReadDirective, next, n + 1, []) == Ok(next);
  }

  /** The state after whole steps. */
  function Appended(st: State, steps: seq<Step>): State {
    State(st.scenario.(steps := st.scenario.steps + steps), false, true)
  }

  lemma AppendedTwice(st: State, a: seq<Step>, b: seq<Step>)
    ensures Appended(Appended(st, a), b) == Appended(st, a + b)
  {
  }

  lemma ExpectationsParse(st: State, k: nat, n: nat, action: Action, e: Expectation)
    requires GoodExpectation(e)
    ensures ParseDirectives(AddStep(st, k, action), n, ExpectDirectives(e)) == Ok(Appended(st, [Step(k, action, e)]))
  {
    FoldAllExpectations(e);
    ExpectDirectivesAreExpectations(e);
    LastOfConcat(st.scenario.steps, Step(k, action, STRICT));
    ParseExpectations(AddStep(st, k, action), n, ExpectDirectives(e));
  }

  /** A printed step parses to that step, whatever came before it. */
  lemma StepParses(st: State, n: nat, step: Step)
    requires GoodStep(step)
    ensures ParseDirectives(st, n, StepDirectives(step)) == Ok(Appended(st, [step.(line := n)]))
  {
    var action, ds := ActionDirectives(step.action), ExpectDirectives(step.expected);
    ActionParses(st, n, step.action);
    FoldBoth(ReadDirective, st, n, action, ds, AddStep(st, n, step.action));
    ExpectationsParse(st, n, n + |action|, step.action, step.expected);
  }

  ghost predicate ReadsSteps(read: Reader, show: Printer, good: Step -> bool) {
    forall st, n, step :: good(step) ==>
      Fold(read, st, n, show(step)) == Ok(Appended(st, [step.(line := n)]))
  }

  /** The state after reading printed steps from line `n` on. */
  ghost function AfterSteps(show: Printer, st: State, n: nat, steps: seq<Step>): State
    decreases |steps|
  {
    if steps == [] then st
    else AfterSteps(show, Appended(st, [steps[0].(line := n)]), n + |show(steps[0])|, steps[1..])
  }

  lemma {:induction false} StepsRead(read: Reader, show: Printer, good: Step -> bool,
                                    st: State, n: nat, steps: seq<Step>)
    requires ReadsSteps(read, show, good) && forall i :: 0 <= i < |steps| ==> good(steps[i])
    ensures Fold(read, st, n, PrintSteps(show, steps)) == Ok(AfterSteps(show, st, n, steps))
    decreases |steps|
  {
    if steps != [] {
      var mid := Appended(st, [steps[0].(line := n)]);
      FoldBoth(read, st, n, show(steps[0]), PrintSteps(show, steps[1..]), mid);
      StepsRead(read, show, good, mid, n + |show(steps[0])|, steps[1..]);
    }
  }

  lemma {:induction false} AfterStepsIsAppended(show: Printer, st: State, n: nat, steps: seq<Step>)
    requires steps != []
    ensures AfterSteps(show, st, n, steps) == Appended(st, Numbered(show, steps, n))
    decreases |steps|
  {
    var first, m := steps[0].(line := n), n + |show(steps[0])|;
    if |steps| == 1 {
      EmptyUnit([first]);
    } else {
      AfterStepsIsAppended(show, Appended(st, [first]), m, steps[1..]);
      AppendedTwice(st, [first], Numbered(show, steps[1..], m));
    }
  }

  lemma StepsParse(st: State, n: nat, steps: seq<Step>)
    requires GoodSteps(steps) && steps != []
    ensures ParseDirectives(st, n, PrintSteps(StepDirectives, steps)) ==
            Ok(Appended(st, Numbered(StepDirectives, steps, n)))
  {
    forall st, n, step | GoodStep(step)
      ensures Fold(ReadDirective, st, n, StepDirectives(step)) == Ok(Appended(st, [step.(line := n)]))
    {
      StepParses(st, n, step);
    }
    StepsRead(ReadDirective, StepDirectives, s => GoodStep(s), st, n, steps);
    AfterStepsIsAppended(StepDirectives, st, n, steps);
  }

  // ---------- Headers ----------

  lemma {:induction false} TagsParse(st: State, n: nat, tags: seq<string>)
    requires st.scenario.steps == [] && forall i :: 0 <= i < |tags| ==> GoodTag(tags[i])
    ensures ParseDirectives(st, n, Each("@requires", tags)) ==
            Ok(st.(scenario := st.scenario.(tags := st.scenario.tags + tags)))
    decreases |tags|
  {
    if tags == [] {
      EmptyUnit(st.scenario.tags);
    } else {
      var st1 := st.(scenario := st.scenario.(tags := st.scenario.tags + [tags[0]]));
      assert ParseDirective(st, n, ("@requires", Some(tags[0]))) == Ok(st1);
      TagsParse(st1, n + 1, tags[1..]);
      Reassociate(st.scenario.tags, [tags[0]], tags[1..]);
      assert [tags[0]] + tags[1..] == tags;
    }
  }

  lemma OnlyParses(only: Option<Backend>)
    ensures ParseDirectives(START, 1, OnlyDirectives(only)) == Ok(START.(scenario := START.scenario.(only := only)))
  {
    match only
    case None =>
    case Some(Native) =>
      assert TrimStart("native") == "native" && TrimEnd("native") == "native";
      OneDirective(START, 1, ("@only", Some("native")));
    case Some(Golem) =>
      assert TrimStart("golem") == "golem" && TrimEnd("golem") == "golem";
      OneDirective(START, 1, ("@only", Some("golem")));
  }

  lemma HeadersParse(sc: Scenario)
    requires GoodScenario(sc)
    ensures ParseDirectives(START, 1, HeaderDirectives(sc)) == Ok(START.(scenario := Scenario(sc.only, sc.tags, [])))
  {
    var mid := START.(scenario := START.scenario.(only := sc.only));
    OnlyParses(sc.only);
    TagsParse(mid, 1 + |OnlyDirectives(sc.only)|, sc.tags);
    EmptyUnit(sc.tags);
    FoldBoth(ReadDirective, START, 1, OnlyDirectives(sc.only), Each("@requires", sc.tags), mid);
  }

  lemma StepsAfterHeaders(sc: Scenario)
    requires GoodScenario(sc) && sc.steps != []
    ensures ParseDirectives(START.(scenario := Scenario(sc.only, sc.tags, [])), 1 + |HeaderDirectives(sc)|,
                            PrintSteps(StepDirectives, sc.steps)) ==
            Ok(State(Renumbered(sc), false, true))
  {
    var n := 1 + |HeaderDirectives(sc)|;
    StepsParse(START.(scenario := Scenario(sc.only, sc.tags, [])), n, sc.steps);
    EmptyUnit(Numbered(StepDirectives, sc.steps, n));
  }

  lemma DirectivesParse(sc: Scenario)
    requires GoodScenario(sc) && sc.steps != []
    ensures ParseDirectives(START, 1, HeaderDirectives(sc) + PrintSteps(StepDirectives, sc.steps)) ==
            Ok(State(Renumbered(sc), false, true))
  {
    var mid := START.(scenario := Scenario(sc.only, sc.tags, []));
    HeadersParse(sc);
    StepsAfterHeaders(sc);
    FoldBoth(ReadDirective, START, 1, HeaderDirectives(sc), PrintSteps(StepDirectives, sc.steps), mid);
  }

  // ---------- Everything printed is printable ----------

  lemma {:induction false} EachIsPrintable(keyword: string, payloads: seq<string>)
    requires Printable((keyword, None)) && forall i :: 0 <= i < |payloads| ==> OneLine(payloads[i])
    ensures AllPrintable(Each(keyword, payloads))
  {
    if payloads != [] {
      EachIsPrintable(keyword, payloads[1..]);
    }
  }

  lemma PrintableConcat(a: seq<Directive>, b: seq<Directive>)
    requires AllPrintable(a) && AllPrintable(b)
    ensures AllPrintable(a + b)
  {
  }

  lemma {:induction false} JoinIsOneLine(parts: seq<string>, c: char)
    requires c != '\n' && forall i :: 0 <= i < |parts| ==> OneLine(parts[i])
    ensures OneLine(JoinRest(parts, c))
  {
    if parts != [] {
      JoinIsOneLine(parts[1..], c);
    }
  }

  lemma CommandIsPrintable(command: string)
    ensures AllPrintable(ActionDirectives(Eval(command)))
  {
    var parts := SplitOn(command, '\n');
    forall k | 0 <= k < |parts|
      ensures OneLine(parts[k])
    {
      SplitOnParts(command, '\n', '\n', k);
    }
    EachIsPrintable("+", parts[1..]);
    PrintableConcat([("run", Some(parts[0]))], Each("+", parts[1..]));
  }

  lemma ActionIsPrintable(action: Action)
    requires GoodAction(action)
    ensures AllPrintable(ActionDirectives(action))
  {
    if action.Eval? {
      CommandIsPrintable(action.command);
    }
  }

  lemma StreamIsPrintable(s: StreamExpect, err: bool)
    requires GoodStream(s)
    ensures AllPrintable(StreamDirectives(s, err))
  {
    EachIsPrintable(StreamName(err), OrNone(s.exact));
    EachIsPrintable(ContainsName(err), s.contains);
    PrintableConcat(Each(ContainsName(err), s.contains), AnyDirectives(s.any, err));
    PrintableConcat(Each(StreamName(err), OrNone(s.exact)),
                    Each(ContainsName(err), s.contains) + AnyDirectives(s.any, err));
  }

  lemma TailIsPrintable(e: Expectation)
    requires GoodExpectation(e)
    ensures AllPrintable([("exit", Some(ExitText(e.exit)))])
    ensures AllPrintable(PromptDirectives(e.prompt) + ChoicesDirectives(e.choices))
  {
    if e.exit.Code? {
      DecimalTextReadsBack(e.exit.code);
    }
    if e.choices.Some? {
      JoinIsOneLine(e.choices.value[1..], ',');
    }
  }

  lemma StepIsPrintable(step: Step)
    requires GoodStep(step)
    ensures AllPrintable(StepDirectives(step))
  {
    var e := step.expected;
    var exit, tail := [("exit", Some(ExitText(e.exit)))], PromptDirectives(e.prompt) + ChoicesDirectives(e.choices);
    ActionIsPrintable(step.action);
    StreamIsPrintable(e.stdout, false);
    StreamIsPrintable(e.stderr, true);
    TailIsPrintable(e);
    PrintableConcat(exit, tail);
    PrintableConcat(StreamDirectives(e.stderr, true), exit + tail);
    PrintableConcat(StreamDirectives(e.stdout, false), StreamDirectives(e.stderr, true) + (exit + tail));
    PrintableConcat(ActionDirectives(step.action), ExpectDirectives(e));
  }

  lemma {:induction false} StepsArePrintable(steps: seq<Step>)
    requires GoodSteps(steps)
    ensures AllPrintable(PrintSteps(StepDirectives, steps))
  {
    if steps != [] {
      StepIsPrintable(steps[0]);
      StepsArePrintable(steps[1..]);
      PrintableConcat(StepDirectives(steps[0]), PrintSteps(StepDirectives, steps[1..]));
    }
  }

  lemma HeadersArePrintable(sc: Scenario)
    requires GoodScenario(sc)
    ensures AllPrintable(HeaderDirectives(sc))
  {
    EachIsPrintable("@requires", sc.tags);
    PrintableConcat(OnlyDirectives(sc.only), Each("@requires", sc.tags));
  }

  // ---------- The round trip ----------

  lemma {:induction false} NumberedLength(show: Printer, steps: seq<Step>, n: nat)
    ensures |Numbered(show, steps, n)| == |steps|
    decreases |steps|
  {
    if steps != [] {
      NumberedLength(show, steps[1..], n + |show(steps[0])|);
    }
  }

  lemma {:induction false} NumberingKeepsContradictions(show: Printer, steps: seq<Step>, n: nat)
    ensures FirstContradiction(Numbered(show, steps, n)).None? <==> FirstContradiction(steps).None?
    decreases |steps|
  {
    if steps != [] {
      NumberingKeepsContradictions(show, steps[1..], n + |show(steps[0])|);
    }
  }

  lemma PrintedIsPrintable(sc: Scenario)
    requires GoodScenario(sc)
    ensures AllPrintable(HeaderDirectives(sc) + PrintSteps(StepDirectives, sc.steps))
  {
    HeadersArePrintable(sc);
    StepsArePrintable(sc.steps);
    PrintableConcat(HeaderDirectives(sc), PrintSteps(StepDirectives, sc.steps));
  }

  lemma PrintedLinesParse(sc: Scenario)
    requires GoodScenario(sc) && sc.steps != []
    ensures ParseLines(START, 1, Lines(Print(sc))) == Ok(State(Renumbered(sc), false, true))
  {
    PrintedIsPrintable(sc);
    ParseRendered(START, 1, HeaderDirectives(sc) + PrintSteps(StepDirectives, sc.steps));
    DirectivesParse(sc);
  }

  lemma RenumberedIsChecked(sc: Scenario)
    requires sc.steps != [] && FirstContradiction(sc.steps).None?
    ensures Checked(Renumbered(sc)) == Ok(Renumbered(sc))
  {
    NumberingKeepsContradictions(StepDirectives, sc.steps, 1 + |HeaderDirectives(sc)|);
  }

  /** Printing a canonical scenario and parsing it gives back the same headers, actions and
      expectations; only the line numbers are those of the printed file. */
  lemma RoundTrip(sc: Scenario)
    requires Canonical(sc)
    ensures Parse(Print(sc)) == Ok(Renumbered(sc))
  {
    PrintedLinesParse(sc);
    NoContradiction(sc.steps);
    RenumberedIsChecked(sc);
  }

  /** The same scenario but for the line numbers. */
  ghost predicate SameScenario(a: Scenario, b: Scenario) {
    a.only == b.only && a.tags == b.tags && |a.steps| == |b.steps| &&
    forall i :: 0 <= i < |a.steps| ==>
      a.steps[i].action == b.steps[i].action && a.steps[i].expected == b.steps[i].expected
  }

  lemma {:induction false} NumberingKeepsSteps(show: Printer, steps: seq<Step>, n: nat, i: nat)
    requires i < |steps| == |Numbered(show, steps, n)|
    ensures Numbered(show, steps, n)[i].action == steps[i].action
    ensures Numbered(show, steps, n)[i].expected == steps[i].expected
    decreases |steps|
  {
    if i > 0 {
      NumberingKeepsSteps(show, steps[1..], n + |show(steps[0])|, i - 1);
    }
  }

  lemma RenumberedIsSame(sc: Scenario)
    ensures SameScenario(Renumbered(sc), sc)
  {
    NumberedLength(StepDirectives, sc.steps, 1 + |HeaderDirectives(sc)|);
    forall i | 0 <= i < |sc.steps|
      ensures Renumbered(sc).steps[i].action == sc.steps[i].action
      ensures Renumbered(sc).steps[i].expected == sc.steps[i].expected
    {
      NumberingKeepsSteps(StepDirectives, sc.steps, 1 + |HeaderDirectives(sc)|, i);
    }
  }

  lemma SameIsCanonical(a: Scenario, b: Scenario)
    requires Canonical(a) && SameScenario(a, b)
    ensures Canonical(b)
  {
  }

  /** The canonical scenarios are exactly what texts parse to, up to line numbers; in particular,
      printing an accepted scenario and parsing it again changes nothing else. */
  lemma CanonicalIffWritable(sc: Scenario)
    ensures Canonical(sc) <==> exists text :: Parse(text).Ok? && SameScenario(Parse(text).value, sc)
  {
    if Canonical(sc) {
      RoundTrip(sc);
      RenumberedIsSame(sc);
      assert Parse(Print(sc)).Ok?;
    }
    if text :| Parse(text).Ok? && SameScenario(Parse(text).value, sc) {
      ParseIsWellFormed(text);
      SameIsCanonical(Parse(text).value, sc);
    }
  }
}
