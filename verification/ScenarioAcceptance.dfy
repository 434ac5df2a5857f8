/** Which scenario texts are accepted, said of the file as a whole: each line is classified by itself,
    and a line may stand or not by the kinds of the lines above it. No parser state appears in the
    conditions. */
module ScenarioAcceptance {
  import opened Results
  import opened Texts
  import opened Seqs
  import opened Folds
  import opened Scenarios
  import opened ScenarioInvariants

  // ---------- What a line is, by itself ----------

  datatype Kind =
    | Skipped // blank, or a comment
    | Malformed
    | OnlyLine
    | RequiresLine
    | RunLine
    | PlusLine
    | AnswerLine
    | AbortLine
    | ExactLine(err: bool)
    | ContainsLine(err: bool)
    | AnyLine(err: bool)
    | ExitLine
    | PromptLine
    | ChoicesLine

  function Proper(ok: bool, kind: Kind): Kind {
    if ok then kind else Malformed
  }

  function KindOfDirective(d: Directive): Kind {
    var (keyword, payload) := d;
    var text := OrEmpty(payload);
    if keyword == "@only" then Proper(Trim(text) == "native" || Trim(text) == "golem", OnlyLine)
    else if keyword == "@requires" then Proper(!IsBlank(text), RequiresLine)
    else if keyword == "run" then Proper(!IsBlank(text), RunLine)
    else if keyword == "+" then PlusLine
    else if keyword == "answer" then Proper(payload.Some?, AnswerLine)
    else if keyword == "abort" then Proper(IsBlank(text), AbortLine)
    else if keyword == "out" || keyword == "err" then Proper(payload.Some?, ExactLine(keyword == "err"))
    else if keyword == "out~" || keyword == "err~" then Proper(text != "", ContainsLine(keyword == "err~"))
    else if keyword == "out*" || keyword == "err*" then Proper(IsBlank(text), AnyLine(keyword == "err*"))
    else if keyword == "exit" then Proper(ParseExit(Trim(text)).Some?, ExitLine)
    else if keyword == "prompt~" then Proper(text != "", PromptLine)
    else if keyword == "choices" then Proper("" !in SplitOn(text, ','), ChoicesLine)
    else Malformed
  }

  function KindOf(raw: string): Kind {
    var line := StripCr(raw);
    if IsBlank(line) || IsComment(line) then Skipped else KindOfDirective(SplitKeyword(line))
  }

  function Kinds(lines: seq<string>): seq<Kind> {
    Mapped(KindOf, lines)
  }

  predicate StartsStep(kind: Kind) {
    kind.RunLine? || kind.AnswerLine? || kind.AbortLine?
  }

  // ---------- Where it may stand ----------

  ghost predicate StepAbove(kinds: seq<Kind>, i: nat)
    requires i <= |kinds|
  {
    exists j :: 0 <= j < i && StartsStep(kinds[j])
  }

  ghost predicate OnlyAbove(kinds: seq<Kind>, i: nat)
    requires i <= |kinds|
  {
    exists j :: 0 <= j < i && kinds[j] == OnlyLine
  }

  /** No step starts strictly between the two. */
  ghost predicate SameStep(kinds: seq<Kind>, j: nat, i: nat)
    requires i <= |kinds|
  {
    forall u :: j < u < i ==> !StartsStep(kinds[u])
  }

  /** A line of that kind stands above line i, in the same step. */
  ghost predicate InStepAbove(kinds: seq<Kind>, i: nat, kind: Kind)
    requires i <= |kinds|
  {
    exists j :: 0 <= j < i && kinds[j] == kind && SameStep(kinds, j, i)
  }

  ghost predicate CommandRightAbove(kinds: seq<Kind>, i: nat)
    requires i <= |kinds|
  {
    i > 0 && (kinds[i - 1] == RunLine || kinds[i - 1] == PlusLine)
  }

  /** An expectation that a step may state only once. */
  predicate OncePerStep(kind: Kind) {
    kind.ExitLine? || kind.PromptLine? || kind.ChoicesLine?
  }

  predicate IsExpectation(kind: Kind) {
    kind.ExactLine? || kind.ContainsLine? || kind.AnyLine? || OncePerStep(kind)
  }

  ghost predicate Allowed(kinds: seq<Kind>, i: nat)
    requires i < |kinds|
  {
    var kind := kinds[i];
    !kind.Malformed? &&
    (kind.OnlyLine? ==> !StepAbove(kinds, i) && !OnlyAbove(kinds, i)) &&
    (kind.RequiresLine? ==> !StepAbove(kinds, i)) &&
    (kind.PlusLine? ==> CommandRightAbove(kinds, i)) &&
    (IsExpectation(kind) ==> StepAbove(kinds, i)) &&
    (OncePerStep(kind) ==> !InStepAbove(kinds, i, kind))
  }

  ghost predicate AllAllowed(kinds: seq<Kind>) {
    forall i :: 0 <= i < |kinds| ==> Allowed(kinds, i)
  }

  ghost predicate Asserted(kinds: seq<Kind>, i: nat, err: bool)
    requires i <= |kinds|
  {
    InStepAbove(kinds, i, ExactLine(err)) || InStepAbove(kinds, i, ContainsLine(err))
  }

  /** The lines of one step above line i leave a stream unasserted and assert it. */
  ghost predicate Conflict(kinds: seq<Kind>, i: nat)
    requires i <= |kinds|
  {
    (InStepAbove(kinds, i, AnyLine(false)) && Asserted(kinds, i, false)) ||
    (InStepAbove(kinds, i, AnyLine(true)) && Asserted(kinds, i, true))
  }

  ghost predicate SomeConflict(kinds: seq<Kind>, n: nat)
    requires n <= |kinds|
  {
    exists i :: 0 <= i <= n && Conflict(kinds, i)
  }

  /** Line s starts the step that line i stands in. */
  ghost predicate StartOfStep(kinds: seq<Kind>, s: nat, i: nat)
    requires i <= |kinds|
  {
    s < i && StartsStep(kinds[s]) && SameStep(kinds, s, i)
  }

  /** The first step with a conflict above line i starts on line s. */
  ghost predicate FirstConflict(kinds: seq<Kind>, i: nat, s: nat)
    requires i <= |kinds|
  {
    (forall m :: 0 <= m <= s && m <= i ==> !Conflict(kinds, m)) &&
    exists m :: 0 <= m <= i && StartOfStep(kinds, s, m) && Conflict(kinds, m)
  }

  // ---------- What the parser's state says about the lines read ----------

  /** The step's expectations hold something that a line of that kind stated. */
  predicate Says(s: Stated, kind: Kind) {
    match kind
    case ExactLine(err) => Stream(s.expected, err).exact.Some?
    case ContainsLine(err) => Stream(s.expected, err).contains != []
    case AnyLine(err) => Stream(s.expected, err).any
    case ExitLine => s.exitSeen
    case PromptLine => s.expected.prompt.Some?
    case ChoicesLine => s.expected.choices.Some?
    case _ => false
  }

  /** The last step, as far as it has been read. */
  function Current(st: State): Stated {
    if st.scenario.steps == [] then Stated(STRICT, false)
    else Stated(LastStep(st.scenario).expected, st.exitSeen)
  }

  /** The parser takes a line of that kind. */
  predicate Takes(st: State, kind: Kind) {
    !kind.Malformed? &&
    (kind.OnlyLine? ==> st.scenario.steps == [] && st.scenario.only.None?) &&
    (kind.RequiresLine? ==> st.scenario.steps == []) &&
    (kind.PlusLine? ==> st.payloadOpen) &&
    (IsExpectation(kind) ==> st.scenario.steps != []) &&
    (OncePerStep(kind) ==> !Says(Current(st), kind))
  }

  /** What a line of that kind makes of the parser's state. */
  ghost predicate Moves(st: State, kind: Kind, st': State) {
    (st'.scenario.steps != [] <==> StartsStep(kind) || st.scenario.steps != []) &&
    (st'.scenario.only.Some? <==> kind.OnlyLine? || st.scenario.only.Some?) &&
    (st'.payloadOpen <==> kind.RunLine? || kind.PlusLine?) &&
    forall k :: Says(Current(st'), k) <==> !StartsStep(kind) && IsExpectation(k) && (k == kind || Says(Current(st), k))
  }

  // ---------- The parser, line by line, in these terms ----------

  lemma ExactByKind(s: Stated, err: bool, payload: Option<string>, k: Kind)
    ensures ExactDirective(s, err, payload).Ok? <==> payload.Some?
    ensures ExactDirective(s, err, payload).Ok? ==>
              (Says(ExactDirective(s, err, payload).value, k) <==> k == ExactLine(err) || Says(s, k))
  {
  }

  lemma ContainsByKind(s: Stated, err: bool, text: string, k: Kind)
    ensures ContainsDirective(s, err, text).Ok? <==> text != ""
    ensures ContainsDirective(s, err, text).Ok? ==>
              (Says(ContainsDirective(s, err, text).value, k) <==> k == ContainsLine(err) || Says(s, k))
  {
  }

  lemma AnyByKind(s: Stated, err: bool, text: string, k: Kind)
    ensures AnyDirective(s, err, text).Ok? <==> IsBlank(text)
    ensures AnyDirective(s, err, text).Ok? ==>
              (Says(AnyDirective(s, err, text).value, k) <==> k == AnyLine(err) || Says(s, k))
  {
  }

  lemma ExitByKind(s: Stated, text: string, k: Kind)
    ensures ExitDirective(s, text).Ok? <==> !s.exitSeen && ParseExit(Trim(text)).Some?
    ensures ExitDirective(s, text).Ok? ==> (Says(ExitDirective(s, text).value, k) <==> k == ExitLine || Says(s, k))
  {
  }

  lemma PromptByKind(s: Stated, text: string, k: Kind)
    ensures PromptDirective(s, text).Ok? <==> s.expected.prompt.None? && text != ""
    ensures PromptDirective(s, text).Ok? ==>
              (Says(PromptDirective(s, text).value, k) <==> k == PromptLine || Says(s, k))
  {
  }

  lemma ChoicesByKind(s: Stated, text: string, k: Kind)
    ensures ChoicesDirective(s, text).Ok? <==> s.expected.choices.None? && "" !in SplitOn(text, ',')
    ensures ChoicesDirective(s, text).Ok? ==>
              (Says(ChoicesDirective(s, text).value, k) <==> k == ChoicesLine || Says(s, k))
  {
  }

  /** A directive that belongs to the current step. */
  predicate IsStepDirective(d: Directive) {
    d.0 != "run" && d.0 != "+" && d.0 != "answer" && d.0 != "abort" && !(d.0 != "" && d.0[0] == '@')
  }

  lemma ExpectByKind(s: Stated, d: Directive, k: Kind)
    requires IsStepDirective(d)
    ensures var kind := KindOfDirective(d);
            (kind.Malformed? || IsExpectation(kind)) &&
            (ExpectDirective(s, d).Ok? <==> !kind.Malformed? && (OncePerStep(kind) ==> !Says(s, kind))) &&
            (ExpectDirective(s, d).Ok? ==> (Says(ExpectDirective(s, d).value, k) <==> k == kind || Says(s, k)))
  {
    var keyword, text := d.0, OrEmpty(d.1);
    if keyword == "out" || keyword == "err" {
      ExactByKind(s, keyword == "err", d.1, k);
    } else if keyword == "out~" || keyword == "err~" {
      ContainsByKind(s, keyword == "err~", text, k);
    } else if keyword == "out*" || keyword == "err*" {
      AnyByKind(s, keyword == "err*", text, k);
    } else if keyword == "exit" {
      ExitByKind(s, text, k);
    } else if keyword == "prompt~" {
      PromptByKind(s, text, k);
    } else if keyword == "choices" {
      ChoicesByKind(s, text, k);
    }
  }

  lemma ExpectationTaken(st: State, d: Directive)
    requires IsStepDirective(d)
    ensures StepExpectation(st, d).Ok? <==> Takes(st, KindOfDirective(d))
    ensures KindOfDirective(d).Malformed? || IsExpectation(KindOfDirective(d))
  {
    ExpectByKind(Current(st), d, Skipped);
  }

  lemma ExpectationSays(st: State, d: Directive, k: Kind)
    requires IsStepDirective(d) && StepExpectation(st, d).Ok?
    ensures var st' := StepExpectation(st, d).value;
            st'.scenario.steps != [] && st'.scenario.only == st.scenario.only && !st'.payloadOpen &&
            (Says(Current(st'), k) <==> k == KindOfDirective(d) || Says(Current(st), k))
  {
    ExpectByKind(Current(st), d, k);
    LastOfConcat(st.scenario.steps[..|st.scenario.steps| - 1], LastStep(StepExpectation(st, d).value.scenario));
  }

  lemma ExpectationByKind(st: State, d: Directive)
    requires IsStepDirective(d)
    ensures StepExpectation(st, d).Ok? <==> Takes(st, KindOfDirective(d))
    ensures StepExpectation(st, d).Ok? ==> Moves(st, KindOfDirective(d), StepExpectation(st, d).value)
  {
    ExpectationTaken(st, d);
    if StepExpectation(st, d).Ok? {
      forall k
        ensures Says(Current(StepExpectation(st, d).value), k) <==> k == KindOfDirective(d) || Says(Current(st), k)
      {
        ExpectationSays(st, d, k);
      }
      ExpectationSays(st, d, Skipped);
    }
  }

  lemma HeaderByKind(st: State, d: Directive)
    requires PayloadOpenIsEval(st) && d.0 != "" && d.0[0] == '@'
    ensures HeaderDirective(st, d).Ok? <==> Takes(st, KindOfDirective(d))
    ensures HeaderDirective(st, d).Ok? ==> Moves(st, KindOfDirective(d), HeaderDirective(st, d).value)
  {
  }

  lemma ContinuationByKind(st: State, text: string)
    requires PayloadOpenIsEval(st)
    ensures ContinuePayload(st, text).Ok? <==> Takes(st, PlusLine)
    ensures ContinuePayload(st, text).Ok? ==> Moves(st, PlusLine, ContinuePayload(st, text).value)
  {
  }

  lemma AddStepByKind(st: State, n: nat, action: Action, kind: Kind)
    requires StartsStep(kind) && (kind.RunLine? <==> action.Eval?)
    ensures Takes(st, kind) && Moves(st, kind, AddStep(st, n, action))
  {
  }

  lemma DirectiveByKind(st: State, n: nat, d: Directive)
    requires PayloadOpenIsEval(st)
    ensures ParseDirective(st, n, d).Ok? <==> Takes(st, KindOfDirective(d))
    ensures ParseDirective(st, n, d).Ok? ==> Moves(st, KindOfDirective(d), ParseDirective(st, n, d).value)
  {
    var (keyword, payload) := d;
    if keyword != "" && keyword[0] == '@' {
      HeaderByKind(st, d);
    } else if keyword == "run" {
      AddStepByKind(st, n, Eval(OrEmpty(payload)), RunLine);
    } else if keyword == "+" {
      ContinuationByKind(st, OrEmpty(payload));
    } else if keyword == "answer" {
      AddStepByKind(st, n, Answer(OrEmpty(payload)), AnswerLine);
    } else if keyword == "abort" {
      AddStepByKind(st, n, Abort, AbortLine);
    } else {
      ExpectationByKind(st, d);
    }
  }

  lemma LineByKind(st: State, n: nat, raw: string)
    requires PayloadOpenIsEval(st)
    ensures ParseLine(st, n, raw).Ok? <==> Takes(st, KindOf(raw))
    ensures ParseLine(st, n, raw).Ok? ==> Moves(st, KindOf(raw), ParseLine(st, n, raw).value)
  {
    var line := StripCr(raw);
    if !IsBlank(line) && !IsComment(line) {
      DirectiveByKind(st, n, SplitKeyword(line));
    }
  }

  // ---------- The lines above, one line further down ----------

  lemma SameStepNext(kinds: seq<Kind>, j: nat, i: nat)
    requires j < i < |kinds|
    ensures SameStep(kinds, j, i + 1) <==> SameStep(kinds, j, i) && !StartsStep(kinds[i])
  {
  }

  lemma InStepNext(kinds: seq<Kind>, i: nat, kind: Kind)
    requires i < |kinds| && !StartsStep(kind)
    ensures InStepAbove(kinds, i + 1, kind) <==>
            !StartsStep(kinds[i]) && (kinds[i] == kind || InStepAbove(kinds, i, kind))
  {
    assert SameStep(kinds, i, i + 1);
    forall j | 0 <= j < i
      ensures SameStep(kinds, j, i + 1) <==> SameStep(kinds, j, i) && !StartsStep(kinds[i])
    {
      SameStepNext(kinds, j, i);
    }
  }

  /** The parser's state says where line i stands. */
  ghost predicate StandsAt(kinds: seq<Kind>, i: nat, st: State)
    requires i <= |kinds|
  {
    (st.scenario.steps != [] <==> StepAbove(kinds, i)) && (st.scenario.only.Some? <==> OnlyAbove(kinds, i)) &&
    (st.payloadOpen <==> CommandRightAbove(kinds, i)) &&
    forall k :: IsExpectation(k) ==> (Says(Current(st), k) <==> InStepAbove(kinds, i, k))
  }

  lemma TakesWhatIsAllowed(kinds: seq<Kind>, i: nat, st: State)
    requires i < |kinds| && StandsAt(kinds, i, st)
    ensures Takes(st, kinds[i]) <==> Allowed(kinds, i)
  {
  }

  lemma StandsNext(kinds: seq<Kind>, i: nat, st: State, st': State)
    requires i < |kinds| && StandsAt(kinds, i, st) && Moves(st, kinds[i], st')
    ensures StandsAt(kinds, i + 1, st')
  {
    forall k | IsExpectation(k)
      ensures Says(Current(st'), k) <==> InStepAbove(kinds, i + 1, k)
    {
      InStepNext(kinds, i, k);
    }
  }

  // ---------- Contradictions ----------

  predicate Contradicts(e: Expectation) {
    Contradictory(e.stdout) || Contradictory(e.stderr)
  }

  /** Only the last step of b can differ from a. */
  ghost predicate TouchesLast(a: seq<Step>, b: seq<Step>) {
    |a| <= |b| <= |a| + 1 && forall k :: 0 <= k < |b| - 1 ==> k < |a| && b[k] == a[k]
  }

  /** The last step starts on line n if the line read starts one, and stays where it was if not. */
  ghost predicate LastLine(a: seq<Step>, b: seq<Step>, starts: bool, n: nat) {
    if starts then |b| == |a| + 1 && b[|a|].line == n
    else |b| == |a| && (a != [] ==> b[|a| - 1].line == a[|a| - 1].line)
  }

  lemma DirectiveTouchesLast(st: State, n: nat, d: Directive)
    requires ParseDirective(st, n, d).Ok?
    ensures var a, b := st.scenario.steps, ParseDirective(st, n, d).value.scenario.steps;
            TouchesLast(a, b) && LastLine(a, b, StartsStep(KindOfDirective(d)), n)
  {
  }

  lemma LineTouchesLast(st: State, n: nat, raw: string)
    requires ParseLine(st, n, raw).Ok?
    ensures var a, b := st.scenario.steps, ParseLine(st, n, raw).value.scenario.steps;
            TouchesLast(a, b) && LastLine(a, b, StartsStep(KindOf(raw)), n)
  {
    var line := StripCr(raw);
    if !IsBlank(line) && !IsComment(line) {
      DirectiveTouchesLast(st, n, SplitKeyword(line));
    }
  }

  /** A contradiction stays the first one; without one, the last step may now be it. */
  lemma {:induction false} TouchedContradiction(a: seq<Step>, b: seq<Step>)
    requires TouchesLast(a, b) && b != []
    requires |a| == |b| ==> a[|a| - 1].line == b[|b| - 1].line
    requires |a| == |b| && StepContradictory(a[|a| - 1]) ==> StepContradictory(b[|b| - 1])
    ensures FirstContradiction(b) ==
            if FirstContradiction(a).Some? then FirstContradiction(a)
            else if StepContradictory(b[|b| - 1]) then Some(b[|b| - 1].line) else None
    decreases |b|
  {
    if |b| > 1 {
      assert b[0] == a[0];
      TouchedContradiction(a[1..], b[1..]);
    } else if |a| == 1 {
      assert a[1..] == [] && b[1..] == [];
    } else {
      assert b[1..] == [];
    }
  }

  lemma StreamContradicts(kinds: seq<Kind>, i: nat, st: State, err: bool)
    requires i <= |kinds| && StandsAt(kinds, i, st)
    ensures Contradictory(Stream(Current(st).expected, err)) <==>
            InStepAbove(kinds, i, AnyLine(err)) && Asserted(kinds, i, err)
  {
    assert Says(Current(st), AnyLine(err)) <==> InStepAbove(kinds, i, AnyLine(err));
    assert Says(Current(st), ExactLine(err)) <==> InStepAbove(kinds, i, ExactLine(err));
    assert Says(Current(st), ContainsLine(err)) <==> InStepAbove(kinds, i, ContainsLine(err));
  }

  lemma LastContradicts(kinds: seq<Kind>, i: nat, st: State)
    requires i <= |kinds| && StandsAt(kinds, i, st)
    ensures Contradicts(Current(st).expected) <==> Conflict(kinds, i)
  {
    StreamContradicts(kinds, i, st, false);
    StreamContradicts(kinds, i, st, true);
  }

  /** A contradiction in a step stays, whatever else is stated in it. */
  lemma ContradictionStays(st: State, kind: Kind, st': State)
    requires Moves(st, kind, st') && !StartsStep(kind) && Contradicts(Current(st).expected)
    ensures Contradicts(Current(st').expected)
  {
    var err := Contradictory(Current(st).expected.stderr);
    assert Says(Current(st), AnyLine(err)) &&
           (Says(Current(st), ExactLine(err)) || Says(Current(st), ContainsLine(err)));
    assert Says(Current(st'), AnyLine(err)) &&
           (Says(Current(st'), ExactLine(err)) || Says(Current(st'), ContainsLine(err)));
  }

  lemma LastContradictionStays(st: State, n: nat, raw: string)
    requires PayloadOpenIsEval(st) && ParseLine(st, n, raw).Ok?
    ensures var a, b := st.scenario.steps, ParseLine(st, n, raw).value.scenario.steps;
            a != [] && |a| == |b| && StepContradictory(a[|a| - 1]) ==> StepContradictory(b[|b| - 1])
  {
    LineTouchesLast(st, n, raw);
    LineByKind(st, n, raw);
    if !StartsStep(KindOf(raw)) && Contradicts(Current(st).expected) {
      ContradictionStays(st, KindOf(raw), ParseLine(st, n, raw).value);
    }
  }

  lemma ContradictionsNext(st: State, n: nat, raw: string)
    requires PayloadOpenIsEval(st) && ParseLine(st, n, raw).Ok?
    ensures var steps, st' := st.scenario.steps, ParseLine(st, n, raw).value;
            FirstContradiction(st'.scenario.steps) ==
            if FirstContradiction(steps).Some? then FirstContradiction(steps)
            else if st'.scenario.steps != [] && Contradicts(Current(st').expected) then
              Some(LastStep(st'.scenario).line)
            else None
  {
    var st' := ParseLine(st, n, raw).value;
    LineTouchesLast(st, n, raw);
    LastContradictionStays(st, n, raw);
    if st'.scenario.steps != [] {
      TouchedContradiction(st.scenario.steps, st'.scenario.steps);
    }
  }

  // ---------- Acceptance ----------

  /** The first step that contradicts itself is the first one with a conflict. */
  ghost predicate ContradictedAt(kinds: seq<Kind>, i: nat, first: Option<nat>)
    requires i <= |kinds|
  {
    match first
    case None => !SomeConflict(kinds, i)
    case Some(line) => line > 0 && FirstConflict(kinds, i, line - 1)
  }

  ghost predicate ReadUpTo(kinds: seq<Kind>, i: nat, st: State)
    requires i <= |kinds|
  {
    PayloadOpenIsEval(st) && StandsAt(kinds, i, st) &&
    LastStarts(kinds, i, st.scenario.steps) &&
    ContradictedAt(kinds, i, FirstContradiction(st.scenario.steps))
  }

  lemma SomeConflictNext(kinds: seq<Kind>, i: nat)
    requires i < |kinds|
    ensures SomeConflict(kinds, i + 1) <==> SomeConflict(kinds, i) || Conflict(kinds, i + 1)
  {
  }

  lemma FirstConflictStays(kinds: seq<Kind>, i: nat, s: nat)
    requires i < |kinds| && FirstConflict(kinds, i, s)
    ensures FirstConflict(kinds, i + 1, s)
  {
  }

  lemma FirstConflictFound(kinds: seq<Kind>, i: nat, s: nat)
    requires i < |kinds| && !SomeConflict(kinds, i) && Conflict(kinds, i + 1) && StartOfStep(kinds, s, i + 1)
    ensures FirstConflict(kinds, i + 1, s)
  {
  }

  lemma ContradictedNext(kinds: seq<Kind>, i: nat, before: Option<nat>, line: nat)
    requires i < |kinds| && ContradictedAt(kinds, i, before)
    requires Conflict(kinds, i + 1) ==> line > 0 && StartOfStep(kinds, line - 1, i + 1)
    ensures ContradictedAt(kinds, i + 1,
                           if before.Some? then before else if Conflict(kinds, i + 1) then Some(line) else None)
  {
    SomeConflictNext(kinds, i);
    if before.Some? {
      FirstConflictStays(kinds, i, before.value - 1);
    } else if Conflict(kinds, i + 1) {
      FirstConflictFound(kinds, i, line - 1);
    }
  }

  lemma StartNext(kinds: seq<Kind>, i: nat, s: nat)
    requires i < |kinds|
    ensures StartOfStep(kinds, s, i + 1) <==> if StartsStep(kinds[i]) then s == i else StartOfStep(kinds, s, i)
  {
  }

  lemma DirectiveKeepsOpen(st: State, n: nat, d: Directive)
    requires PayloadOpenIsEval(st) && ParseDirective(st, n, d).Ok?
    ensures PayloadOpenIsEval(ParseDirective(st, n, d).value)
  {
  }

  lemma LineKeepsOpen(st: State, n: nat, raw: string)
    requires PayloadOpenIsEval(st) && ParseLine(st, n, raw).Ok?
    ensures PayloadOpenIsEval(ParseLine(st, n, raw).value)
  {
    var line := StripCr(raw);
    if !IsBlank(line) && !IsComment(line) {
      DirectiveKeepsOpen(st, n, SplitKeyword(line));
    }
  }

  /** The last step is the one that line i stands in. */
  ghost predicate LastStarts(kinds: seq<Kind>, i: nat, steps: seq<Step>)
    requires i <= |kinds|
  {
    steps != [] ==> steps[|steps| - 1].line > 0 && StartOfStep(kinds, steps[|steps| - 1].line - 1, i)
  }

  lemma LastStartsNext(kinds: seq<Kind>, i: nat, a: seq<Step>, b: seq<Step>)
    requires i < |kinds| && LastStarts(kinds, i, a) && LastLine(a, b, StartsStep(kinds[i]), i + 1)
    ensures LastStarts(kinds, i + 1, b)
  {
    if b != [] {
      StartNext(kinds, i, if StartsStep(kinds[i]) then i else a[|a| - 1].line - 1);
    }
  }

  lemma LineStarts(kinds: seq<Kind>, i: nat, st: State, raw: string)
    requires i < |kinds| && kinds[i] == KindOf(raw) && LastStarts(kinds, i, st.scenario.steps)
    requires ParseLine(st, i + 1, raw).Ok?
    ensures LastStarts(kinds, i + 1, ParseLine(st, i + 1, raw).value.scenario.steps)
  {
    LineTouchesLast(st, i + 1, raw);
    LastStartsNext(kinds, i, st.scenario.steps, ParseLine(st, i + 1, raw).value.scenario.steps);
  }

  lemma ConflictOfLast(kinds: seq<Kind>, i: nat, st: State, line: nat)
    requires i <= |kinds| && StandsAt(kinds, i, st) && LastStarts(kinds, i, st.scenario.steps)
    requires line == if st.scenario.steps == [] then 0 else LastStep(st.scenario).line
    ensures Conflict(kinds, i) <==> st.scenario.steps != [] && Contradicts(Current(st).expected)
    ensures Conflict(kinds, i) ==> line > 0 && StartOfStep(kinds, line - 1, i)
  {
    LastContradicts(kinds, i, st);
  }

  lemma LineContradicts(kinds: seq<Kind>, i: nat, st: State, raw: string, st': State, line: nat)
    requires i < |kinds| && PayloadOpenIsEval(st) && ParseLine(st, i + 1, raw) == Ok(st')
    requires ContradictedAt(kinds, i, FirstContradiction(st.scenario.steps))
    requires st'.scenario.steps != [] ==> line == LastStep(st'.scenario).line
    requires Conflict(kinds, i + 1) <==> st'.scenario.steps != [] && Contradicts(Current(st').expected)
    requires Conflict(kinds, i + 1) ==> line > 0 && StartOfStep(kinds, line - 1, i + 1)
    ensures ContradictedAt(kinds, i + 1, FirstContradiction(st'.scenario.steps))
  {
    ContradictionsNext(st, i + 1, raw);
    ContradictedNext(kinds, i, FirstContradiction(st.scenario.steps), line);
  }

  lemma LineStands(kinds: seq<Kind>, i: nat, st: State, raw: string, st': State)
    requires i < |kinds| && kinds[i] == KindOf(raw) && ParseLine(st, i + 1, raw) == Ok(st')
    requires PayloadOpenIsEval(st) && StandsAt(kinds, i, st)
    ensures PayloadOpenIsEval(st') && StandsAt(kinds, i + 1, st')
  {
    LineByKind(st, i + 1, raw);
    LineKeepsOpen(st, i + 1, raw);
    StandsNext(kinds, i, st, st');
  }

  lemma LineReads(kinds: seq<Kind>, i: nat, st: State, raw: string)
    requires i < |kinds| && kinds[i] == KindOf(raw) && ReadUpTo(kinds, i, st) && ParseLine(st, i + 1, raw).Ok?
    ensures ReadUpTo(kinds, i + 1, ParseLine(st, i + 1, raw).value)
  {
    var st' := ParseLine(st, i + 1, raw).value;
    var line := if st'.scenario.steps == [] then 0 else LastStep(st'.scenario).line;
    LineStands(kinds, i, st, raw, st');
    LineStarts(kinds, i, st, raw);
    ConflictOfLast(kinds, i + 1, st', line);
    LineContradicts(kinds, i, st, raw, st', line);
  }

  lemma LineAllowed(kinds: seq<Kind>, i: nat, st: State, n: nat, raw: string)
    requires i < |kinds| && kinds[i] == KindOf(raw) && ReadUpTo(kinds, i, st)
    ensures ParseLine(st, n, raw).Ok? <==> Allowed(kinds, i)
  {
    LineByKind(st, n, raw);
    TakesWhatIsAllowed(kinds, i, st);
  }

  ghost function Reading(kinds: seq<Kind>): (State, nat) -> bool {
    (st: State, i: nat) => i <= |kinds| && ReadUpTo(kinds, i, st)
  }

  ghost function AllowedAt(kinds: seq<Kind>): nat -> bool {
    (i: nat) => i < |kinds| && Allowed(kinds, i)
  }

  ghost function BlamesLine(): (ParseError, nat) -> bool {
    (e: ParseError, i: nat) => e.line == i + 1
  }

  lemma LineBlamed(st: State, n: nat, raw: string)
    ensures ParseLine(st, n, raw).Err? ==> ParseLine(st, n, raw).error.line == n
  {
  }

  lemma LineAdmitted(lines: seq<string>, kinds: seq<Kind>, st: State, i: nat)
    requires i < |lines| <= |kinds| && kinds[i] == KindOf(lines[i])
    ensures Admits(ParseLine, lines, 1, Reading(kinds), AllowedAt(kinds), BlamesLine(), st, i)
  {
    LineBlamed(st, i + 1, lines[i]);
    if ReadUpTo(kinds, i, st) {
      LineAllowed(kinds, i, st, i + 1, lines[i]);
      if ParseLine(st, i + 1, lines[i]).Ok? {
        LineReads(kinds, i, st, lines[i]);
      }
    }
  }

  lemma StartReads(kinds: seq<Kind>)
    ensures Reading(kinds)(START, 0)
  {
  }

  /** `kinds` may go on after these lines. */
  lemma LinesRead(lines: seq<string>, kinds: seq<Kind>)
    requires Kinds(lines) <= kinds
    ensures match ParseLines(START, 1, lines)
            case Ok(st) => Reading(kinds)(st, |lines|) && forall i :: 0 <= i < |lines| ==> AllowedAt(kinds)(i)
            case Err(e) => exists j :: 0 <= j < |lines| && FirstRefused(AllowedAt(kinds), 0, j) && BlamesLine()(e, j)
  {
    forall st: State, i | 0 <= i < |lines|
      ensures Admits(ParseLine, lines, 1, Reading(kinds), AllowedAt(kinds), BlamesLine(), st, i)
    {
      assert kinds[i] == Kinds(lines)[i];
      LineAdmitted(lines, kinds, st, i);
    }
    StartReads(kinds);
    FoldAdmits(ParseLine, lines, 1, Reading(kinds), AllowedAt(kinds), BlamesLine(), START, 0);
    SplitAt(lines, 0);
  }

  /** Line i is the first that may not stand where it stands. */
  ghost predicate FirstNotAllowed(kinds: seq<Kind>, i: nat) {
    i < |kinds| && !Allowed(kinds, i) && forall k :: 0 <= k < i ==> Allowed(kinds, k)
  }

  lemma RefusedIsNotAllowed(kinds: seq<Kind>, j: nat)
    requires j < |kinds|
    ensures FirstRefused(AllowedAt(kinds), 0, j) <==> FirstNotAllowed(kinds, j)
  {
    assert forall i :: 0 <= i < |kinds| ==> (AllowedAt(kinds)(i) <==> Allowed(kinds, i));
  }

  lemma ReadToTheEnd(kinds: seq<Kind>, st: State)
    requires Reading(kinds)(st, |kinds|)
    ensures match Checked(st.scenario)
            case Ok(_) => StepAbove(kinds, |kinds|) && !SomeConflict(kinds, |kinds|)
            case Err(e) =>
              if !StepAbove(kinds, |kinds|) then e == ParseError(1, NoSteps)
              else e.line > 0 && FirstConflict(kinds, |kinds|, e.line - 1) && e.kind == AnyCombined
  {
  }

  lemma ConflictIsSome(kinds: seq<Kind>, s: nat)
    requires FirstConflict(kinds, |kinds|, s)
    ensures SomeConflict(kinds, |kinds|)
  {
  }

  lemma LinesReadOrRefused(text: string, kinds: seq<Kind>)
    requires kinds == Kinds(Lines(text))
    ensures match ParseLines(START, 1, Lines(text))
            case Ok(st) => Reading(kinds)(st, |kinds|) && AllAllowed(kinds)
            case Err(e) => e.line > 0 && FirstNotAllowed(kinds, e.line - 1)
  {
    LinesRead(Lines(text), kinds);
    match ParseLines(START, 1, Lines(text))
    case Ok(st) =>
      assert forall i :: 0 <= i < |kinds| ==> (AllowedAt(kinds)(i) <==> Allowed(kinds, i));
    case Err(e) =>
      var j :| 0 <= j < |kinds| && FirstRefused(AllowedAt(kinds), 0, j) && BlamesLine()(e, j);
      RefusedIsNotAllowed(kinds, j);
  }

  lemma RefusedIsReported(kinds: seq<Kind>, e: ParseError, r: Result<Scenario, ParseError>)
    requires r == Err(e) && e.line > 0 && FirstNotAllowed(kinds, e.line - 1)
    ensures !AllAllowed(kinds) && r.error.line > 0 && FirstNotAllowed(kinds, r.error.line - 1)
  {
  }

  /** Every text is accepted, or rejected at its first line that may not stand where it stands, or, if
      there is none, as a whole: at line 1 if no line starts a step, else at the start of the first
      step whose lines leave a stream unasserted and assert it. */
  lemma ParsedExactly(text: string, kinds: seq<Kind>)
    requires kinds == Kinds(Lines(text))
    ensures match Parse(text)
            case Ok(_) => AllAllowed(kinds) && StepAbove(kinds, |kinds|) && !SomeConflict(kinds, |kinds|)
            case Err(e) =>
              if !AllAllowed(kinds) then e.line > 0 && FirstNotAllowed(kinds, e.line - 1)
              else if !StepAbove(kinds, |kinds|) then e == ParseError(1, NoSteps)
              else e.line > 0 && FirstConflict(kinds, |kinds|, e.line - 1) && e.kind == AnyCombined
  {
    LinesReadOrRefused(text, kinds);
    match ParseLines(START, 1, Lines(text))
    case Ok(st) => ReadToTheEnd(kinds, st);
    case Err(e) => RefusedIsReported(kinds, e, Parse(text));
  }

  /** A text is accepted exactly when every line may stand where it stands, some line starts a step,
      and the lines of no step leave a stream unasserted and assert it. */
  lemma AcceptedExactly(text: string)
    ensures var kinds := Kinds(Lines(text));
            Parse(text).Ok? <==>
            AllAllowed(kinds) && StepAbove(kinds, |kinds|) && !SomeConflict(kinds, |kinds|)
  {
    var kinds := Kinds(Lines(text));
    ParsedExactly(text, kinds);
    if s: nat :| FirstConflict(kinds, |kinds|, s) {
      ConflictIsSome(kinds, s);
    }
  }

  /** After accepted lines, the next line is accepted exactly when it may stand there. */
  lemma NextLineExactly(lines: seq<string>, raw: string)
    requires ParseLines(START, 1, lines).Ok?
    ensures ParseLine(ParseLines(START, 1, lines).value, |lines| + 1, raw).Ok? <==>
            Allowed(Kinds(lines + [raw]), |lines|)
  {
    var kinds := Kinds(lines + [raw]);
    LinesRead(lines, kinds);
    LineAllowed(kinds, |lines|, ParseLines(START, 1, lines).value, |lines| + 1, raw);
  }

  lemma PlusAllowed(kinds: seq<Kind>, i: nat)
    requires i < |kinds| && kinds[i] == PlusLine
    ensures Allowed(kinds, i) <==> CommandRightAbove(kinds, i)
  {
  }

  lemma ExitAllowed(kinds: seq<Kind>, i: nat)
    requires i < |kinds| && kinds[i] == ExitLine
    ensures Allowed(kinds, i) <==> StepAbove(kinds, i) && !InStepAbove(kinds, i, ExitLine)
  {
  }

  /** In particular, `+` is accepted exactly when the line right above is a `run` or another `+`:
      nothing can come between a command and its continuations. */
  lemma ContinuationExactlyBelowCommand(lines: seq<string>, raw: string, kinds: seq<Kind>)
    requires kinds == Kinds(lines + [raw])
    ensures var r := ParseLines(START, 1, lines);
            r.Ok? && kinds[|lines|] == PlusLine ==>
              (ParseLine(r.value, |lines| + 1, raw).Ok? <==> CommandRightAbove(kinds, |lines|))
  {
    if ParseLines(START, 1, lines).Ok? && kinds[|lines|] == PlusLine {
      NextLineExactly(lines, raw);
      PlusAllowed(kinds, |lines|);
    }
  }

  /** And a readable `exit` exactly when a step has started and has not stated one, even one that
      restates the default. */
  lemma ExitExactlyOncePerStep(lines: seq<string>, raw: string, kinds: seq<Kind>)
    requires kinds == Kinds(lines + [raw])
    ensures var r := ParseLines(START, 1, lines);
            r.Ok? && kinds[|lines|] == ExitLine ==>
              (ParseLine(r.value, |lines| + 1, raw).Ok? <==>
               StepAbove(kinds, |lines|) && !InStepAbove(kinds, |lines|, ExitLine))
  {
    if ParseLines(START, 1, lines).Ok? && kinds[|lines|] == ExitLine {
      NextLineExactly(lines, raw);
      ExitAllowed(kinds, |lines|);
    }
  }
}
