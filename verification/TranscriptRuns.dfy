/** What holds of a transcript after every sequence of operations. */
module TranscriptRuns {
  import opened Results
  import opened ByteStrings
  import opened Utf8Text
  import opened Repetition
  import opened Transcripts
  import opened Seqs

  // ---------- An independent account of what happened ----------

  /** A run remembers what the window forgets: every command recorded since the last clear, and all
      the text dropped since the last successful summary or discard. */
  datatype Session = Session(st: State, commands: seq<Entry>, span: Bytes)

  /** The marker's count: how many commands were dropped since the last clear. */
  function Dropped(entries: seq<Entry>): nat {
    if HasMarker(entries) then entries[0].count else 0
  }

  /** The commands recorded after `op`, from the operations alone. */
  function CommandsAfter(mask: Mask, commands: seq<Entry>, op: Op): seq<Entry> {
    match op
    case RecordCommand(command) => commands + [Command(mask(command), [])]
    case RecordOutput(output) => AppendOutput(commands, Masked(mask, output))
    case Clear => []
    case Trim(_) => commands
    case SetMarkerSummary(_) => commands
    case DiscardDroppedSpan => commands
  }

  ghost function SpanAfter(s: Session, op: Op, commands: seq<Entry>, entries: seq<Entry>): Bytes {
    match op
    case Clear => s.span
    case DiscardDroppedSpan => []
    case SetMarkerSummary(_) => if HasMarker(s.st.entries) then [] else s.span
    case _ =>
      var from, to := Dropped(s.st.entries), Dropped(entries);
      if from <= to <= |commands| then s.span + RenderEntries(commands[from..to]) else s.span
  }

  ghost function Next(mask: Mask, cap: nat, s: Session, op: Op): Session {
    var st := Apply(mask, cap, s.st, op);
    var commands := CommandsAfter(mask, s.commands, op);
    Session(st, commands, SpanAfter(s, op, commands, st.entries))
  }

  ghost function Run(mask: Mask, cap: nat, ops: seq<Op>): Session {
    if ops == [] then Session(State([], []), [], [])
    else Next(mask, cap, Run(mask, cap, ops[..|ops| - 1]), ops[|ops| - 1])
  }

  // ---------- The window invariant ----------

  ghost predicate AllCommands(commands: seq<Entry>) {
    forall i :: 0 <= i < |commands| ==> commands[i].Command?
  }

  /** All the recorded commands, or one leading marker that counts the dropped ones and a nonempty
      suffix of the rest. */
  ghost predicate Accounts(entries: seq<Entry>, commands: seq<Entry>) {
    AllCommands(commands) &&
    (entries == commands ||
     (HasMarker(entries) && 0 < entries[0].count < |commands| && entries[1..] == commands[entries[0].count..]))
  }

  lemma LastBytesOfSuffix(s: Bytes, from: nat, cap: nat)
    requires from <= |s| && (from == 0 || |s| - from >= cap)
    ensures LastBytes(s[from..], cap) == LastBytes(s, cap)
  {
  }

  /** Bounding the buffer early loses nothing that bounding it late would keep. */
  lemma LastBytesAbsorbs(x: Bytes, y: Bytes, cap: nat)
    ensures LastBytes(LastBytes(x, cap) + y, cap) == LastBytes(x + y, cap)
  {
    var from := |x| - |LastBytes(x, cap)|;
    assert LastBytes(x, cap) + y == (x + y)[from..];
    LastBytesOfSuffix(x + y, from, cap);
  }

  /** One drop takes exactly the oldest surviving command out of the window. */
  lemma DropTakesOldest(st: State, commands: seq<Entry>, k: nat)
    requires Accounts(st.entries, commands) && CanDrop(st.entries) && k == Dropped(st.entries)
    ensures k + 1 < |commands| && DropOldest(st).entries == [Elided(k + 1, None)] + commands[k + 1..]
    ensures st.entries[OldestCommand(st.entries)] == commands[k]
  {
    if HasMarker(st.entries) {
      assert st.entries[1] == st.entries[1..][0];
      assert st.entries[2..] == st.entries[1..][1..] == commands[k + 1..];
      assert (st.entries[..1] + st.entries[2..])[1..] == st.entries[2..];
    } else {
      assert st.entries == commands;
      assert st.entries[..0] + st.entries[1..] == commands[1..];
    }
  }

  /** And moves its text, and nothing else, to the buffer. */
  lemma DropStashes(st: State, commands: seq<Entry>, span: Bytes, k: nat)
    requires Accounts(st.entries, commands) && CanDrop(st.entries) && k == Dropped(st.entries)
    requires st.lastDropped == LastBytes(span, LAST_DROPPED_CAP)
    ensures k < |commands| && DropOldest(st).lastDropped == LastBytes(span + RenderEntry(commands[k]), LAST_DROPPED_CAP)
  {
    DropTakesOldest(st, commands, k);
    LastBytesAbsorbs(span, RenderEntry(commands[k]), LAST_DROPPED_CAP);
  }

  ghost predicate Inv(s: Session) {
    Accounts(s.st.entries, s.commands) && s.st.lastDropped == LastBytes(s.span, LAST_DROPPED_CAP)
  }

  /** What drops make of a window whose marker counts `from`, once it counts `to`: commands `from` up
      to `to` have left it, oldest first, and their text is in the buffer. */
  ghost function Shortened(s: Session, from: nat, to: nat): State
    requires from <= to <= |s.commands|
  {
    if to == from then s.st
    else
      State([Elided(to, None)] + s.commands[to..],
            LastBytes(s.span + RenderEntries(s.commands[from..to]), LAST_DROPPED_CAP))
  }

  /** A shortened window is a window of the same commands, over a longer span. */
  lemma ShortenedAccounts(s: Session, from: nat, to: nat)
    requires Inv(s) && from == Dropped(s.st.entries) <= to <= |s.commands| && (to == from || to < |s.commands|)
    ensures Accounts(Shortened(s, from, to).entries, s.commands)
    ensures Dropped(Shortened(s, from, to).entries) == to
  {
  }

  lemma ShortenedSpan(s: Session, from: nat, to: nat)
    requires Inv(s) && from == Dropped(s.st.entries) <= to <= |s.commands|
    ensures Shortened(s, from, to).lastDropped ==
            LastBytes(s.span + RenderEntries(s.commands[from..to]), LAST_DROPPED_CAP)
  {
    NothingDropped(s.span, s.commands, from);
  }

  lemma OneMoreDrop(s: Session, from: nat, to: nat)
    requires Inv(s) && from == Dropped(s.st.entries) <= to < |s.commands|
    requires CanDrop(Shortened(s, from, to).entries)
    ensures to + 1 < |s.commands| && DropOldest(Shortened(s, from, to)) == Shortened(s, from, to + 1)
  {
    var st, text := Shortened(s, from, to), s.span + RenderEntries(s.commands[from..to]);
    ShortenedAccounts(s, from, to);
    ShortenedSpan(s, from, to);
    DropTakesOldest(st, s.commands, to);
    DropStashes(st, s.commands, text, to);
    SpanGrowsByOne(s.span, s.commands, from, to);
  }

  lemma SpanGrowsByOne(span: Bytes, commands: seq<Entry>, from: nat, to: nat)
    requires from <= to < |commands|
    ensures (span + RenderEntries(commands[from..to])) + RenderEntry(commands[to]) ==
            span + RenderEntries(commands[from..to + 1])
  {
    OneRendered(commands, to);
    SpanGrows(span, commands, from, to, to + 1);
  }

  lemma OneRendered(commands: seq<Entry>, k: nat)
    requires k < |commands|
    ensures RenderEntries(commands[k..k + 1]) == RenderEntry(commands[k])
  {
    assert commands[k..k + 1] == [commands[k]] && [commands[k]][1..] == [];
    EmptyUnit(RenderEntry(commands[k]));
  }

  ghost function Listed(s: Session, from: nat): nat -> State {
    to => if from <= to < |s.commands| then Shortened(s, from, to) else s.st
  }

  lemma ListedStep(s: Session, from: nat, to: nat)
    requires Inv(s) && from == Dropped(s.st.entries) <= to < |s.commands|
    ensures Leads(Able, Drop, Listed(s, from), to, |s.commands|)
  {
    assert Listed(s, from)(to) == Shortened(s, from, to);
    if Able(Shortened(s, from, to)) {
      OneMoreDrop(s, from, to);
      assert Listed(s, from)(to + 1) == Shortened(s, from, to + 1);
    }
  }

  lemma ListedSteps(s: Session, from: nat)
    requires Inv(s) && from == Dropped(s.st.entries)
    ensures forall to :: from <= to < |s.commands| ==> Leads(Able, Drop, Listed(s, from), to, |s.commands|)
  {
    forall to | from <= to < |s.commands|
      ensures Leads(Able, Drop, Listed(s, from), to, |s.commands|)
    {
      ListedStep(s, from, to);
    }
  }

  lemma TrimFollows(st: State, at: nat -> State, n: nat, from: nat, end: nat)
    requires from < end && at(from) == st && forall to :: from <= to < end ==> Leads(Able, Drop, at, to, end)
    ensures from + TrimmedCount(st, n) < end && TrimmedState(st, n) == at(from + TrimmedCount(st, n))
  {
    RepeatFollows(Able, Drop, at, n, from, end);
  }

  /** Any number of drops take exactly the oldest commands out of the window and move their text, and
      nothing else, to the buffer. */
  lemma TrimDrops(s: Session, n: nat)
    requires Inv(s)
    ensures var from, to := Dropped(s.st.entries), Dropped(TrimmedState(s.st, n).entries);
            from <= to <= |s.commands| && (to == from || to < |s.commands|) &&
            TrimmedState(s.st, n) == Shortened(s, from, to)
  {
    if CanDrop(s.st.entries) {
      var from := Dropped(s.st.entries);
      DropTakesOldest(s.st, s.commands, from);
      ListedSteps(s, from);
      TrimFollows(s.st, Listed(s, from), n, from, |s.commands|);
      ShortenedAccounts(s, from, from + TrimmedCount(s.st, n));
    }
  }

  lemma SomethingDropped(span: Bytes, commands: seq<Entry>, from: nat, to: nat)
    requires AllCommands(commands) && from < to <= |commands|
    ensures LastBytes(span + RenderEntries(commands[from..to]), LAST_DROPPED_CAP) != []
  {
    assert commands[from..to][0] == commands[from] && RenderEntry(commands[from])[0] == PROMPT[0];
  }

  lemma NothingDropped(span: Bytes, commands: seq<Entry>, from: nat)
    requires from <= |commands|
    ensures span + RenderEntries(commands[from..from]) == span
  {
  }

  // ---------- Every step keeps the account ----------

  lemma AppendOutputKeepsAccounts(entries: seq<Entry>, commands: seq<Entry>, text: Bytes)
    requires Accounts(entries, commands)
    ensures Accounts(AppendOutput(entries, text), AppendOutput(commands, text))
    ensures Dropped(AppendOutput(entries, text)) == Dropped(entries)
    ensures HasMarker(AppendOutput(entries, text)) == HasMarker(entries)
    ensures HasMarker(entries) ==> AppendOutput(entries, text)[0] == entries[0]
  {
    if HasMarker(entries) {
      var k, last := entries[0].count, commands[|commands| - 1];
      assert entries[1..][|entries| - 2] == last;
      var entries', commands' := AppendOutput(entries, text), AppendOutput(commands, text);
      assert entries'[1..] == entries[1..][..|entries| - 2] + [Command(last.command, last.output + text)];
      assert commands'[k..] == commands[k..][..|entries| - 2] + [Command(last.command, last.output + text)];
    }
  }

  /** How many commands an operation drops. */
  ghost function DropCount(mask: Mask, cap: nat, st: State, op: Op): nat {
    var st' := Apply(mask, cap, st, op);
    if (op.RecordOutput? || op.Trim?) && Dropped(st'.entries) > Dropped(st.entries)
    then Dropped(st'.entries) - Dropped(st.entries) else 0
  }

  lemma DropsKeepInv(s: Session, n: nat)
    requires Inv(s)
    ensures var st' := TrimmedState(s.st, n);
            var from, to := Dropped(s.st.entries), Dropped(st'.entries);
            from <= to <= |s.commands| && Inv(Session(st', s.commands, s.span + RenderEntries(s.commands[from..to])))
  {
    var from, to := Dropped(s.st.entries), Dropped(TrimmedState(s.st, n).entries);
    TrimDrops(s, n);
    ShortenedAccounts(s, from, to);
    ShortenedSpan(s, from, to);
  }

  lemma RecordCommandKeepsInv(mask: Mask, cap: nat, s: Session, command: Bytes)
    requires Inv(s)
    ensures Inv(Next(mask, cap, s, Op.RecordCommand(command)))
  {
    var e := Command(mask(command), []);
    var entries, commands := s.st.entries + [e], s.commands + [e];
    NothingDropped(s.span, commands, Dropped(entries));
    if HasMarker(s.st.entries) {
      assert entries[1..] == s.st.entries[1..] + [e];
      assert commands[entries[0].count..] == s.commands[entries[0].count..] + [e];
    }
  }

  lemma RecordOutputKeepsInv(mask: Mask, cap: nat, s: Session, output: Bytes)
    requires Inv(s)
    ensures Inv(Next(mask, cap, s, Op.RecordOutput(output)))
  {
    var text := Masked(mask, output);
    AppendOutputKeepsAccounts(s.st.entries, s.commands, text);
    var t := Session(s.st.(entries := AppendOutput(s.st.entries, text)), AppendOutput(s.commands, text), s.span);
    var k := EvictionIsTheLeastTrim(t.st, cap);
    DropsKeepInv(t, k);
  }

  lemma StepKeepsInv(mask: Mask, cap: nat, s: Session, op: Op)
    requires Inv(s)
    ensures Inv(Next(mask, cap, s, op))
  {
    match op
    case RecordCommand(command) => RecordCommandKeepsInv(mask, cap, s, command);
    case RecordOutput(output) => RecordOutputKeepsInv(mask, cap, s, output);
    case Trim(n) => DropsKeepInv(s, n);
    case Clear =>
    case SetMarkerSummary(text) =>
    case DiscardDroppedSpan =>
  }

  lemma {:induction false} RunKeepsInv(mask: Mask, cap: nat, ops: seq<Op>)
    ensures Inv(Run(mask, cap, ops))
  {
    if ops != [] {
      RunKeepsInv(mask, cap, ops[..|ops| - 1]);
      StepKeepsInv(mask, cap, Run(mask, cap, ops[..|ops| - 1]), ops[|ops| - 1]);
    }
  }

  // ---------- What that means for callers ----------

  /** After every run: the window is a suffix of the commands recorded since the last clear, behind
      at most one marker whose count makes up the difference, and the newest command is in it. */
  lemma WindowAccounting(mask: Mask, cap: nat, ops: seq<Op>)
    ensures var s := Run(mask, cap, ops);
            var survivors := s.st.entries[OldestCommand(s.st.entries)..];
            Dropped(s.st.entries) + |survivors| == |s.commands| && AllCommands(survivors) &&
            survivors == s.commands[Dropped(s.st.entries)..] &&
            (s.commands != [] ==> survivors != []) &&
            (HasMarker(s.st.entries) ==> 0 < Dropped(s.st.entries))
  {
    RunKeepsInv(mask, cap, ops);
  }

  /** Right after an output is recorded, the window meets its cap, and so holds at most four bytes
      of text for each token of it, or holds a single command. */
  lemma CapIsMet(mask: Mask, cap: nat, ops: seq<Op>, output: Bytes)
    ensures var st := Run(mask, cap, ops + [RecordOutput(output)]).st;
            Droppable(st.entries) <= 1 || (TotalTokens(st.entries) <= cap && AllTextBytes(st.entries) <= 4 * cap)
  {
    assert (ops + [RecordOutput(output)])[..|ops|] == ops;
    var st := Run(mask, cap, ops).st;
    var k := EvictionIsTheLeastTrim(st.(entries := AppendOutput(st.entries, Masked(mask, output))), cap);
    TokensBoundText(Run(mask, cap, ops + [RecordOutput(output)]).st.entries);
  }

  /** The side buffer is exactly the last LAST_DROPPED_CAP bytes of everything dropped since the last
      successful summary or discard. */
  lemma DroppedSpanIsExact(mask: Mask, cap: nat, ops: seq<Op>)
    ensures var s := Run(mask, cap, ops); s.st.lastDropped == LastBytes(s.span, LAST_DROPPED_CAP)
  {
    RunKeepsInv(mask, cap, ops);
  }

  lemma PendingAfterDrops(s: Session, n: nat)
    requires Inv(s)
    ensures var st' := TrimmedState(s.st, n);
            PendingSummary(st').Some? <==> PendingSummary(s.st).Some? || Dropped(st'.entries) > Dropped(s.st.entries)
  {
    var from, to := Dropped(s.st.entries), Dropped(TrimmedState(s.st, n).entries);
    TrimDrops(s, n);
    if from < to {
      SomethingDropped(s.span, s.commands, from, to);
    }
  }

  lemma PendingAfterOutput(mask: Mask, cap: nat, s: Session, output: Bytes)
    requires Inv(s)
    ensures PendingSummary(Apply(mask, cap, s.st, Op.RecordOutput(output))).Some? <==>
            PendingSummary(s.st).Some? || DropCount(mask, cap, s.st, Op.RecordOutput(output)) > 0
  {
    var text := Masked(mask, output);
    AppendOutputKeepsAccounts(s.st.entries, s.commands, text);
    var t := Session(s.st.(entries := AppendOutput(s.st.entries, text)), AppendOutput(s.commands, text), s.span);
    var k := EvictionIsTheLeastTrim(t.st, cap);
    PendingAfterDrops(t, k);
  }

  lemma PendingAfterRecordCommand(mask: Mask, cap: nat, s: Session, command: Bytes)
    requires Inv(s)
    ensures PendingSummary(Apply(mask, cap, s.st, Op.RecordCommand(command))) == PendingSummary(s.st)
  {
  }

  lemma PendingStep(mask: Mask, cap: nat, s: Session, op: Op)
    requires Inv(s)
    ensures PendingSummary(Apply(mask, cap, s.st, op)).Some? <==>
            (op.RecordCommand? || op.RecordOutput? || op.Trim?) &&
            (PendingSummary(s.st).Some? || DropCount(mask, cap, s.st, op) > 0)
  {
    match op
    case RecordCommand(command) => PendingAfterRecordCommand(mask, cap, s, command);
    case RecordOutput(output) => PendingAfterOutput(mask, cap, s, output);
    case Trim(n) => PendingAfterDrops(s, n);
    case Clear =>
    case SetMarkerSummary(text) =>
    case DiscardDroppedSpan =>
  }

  /** A drop opens a pending span, whose count is all the commands dropped since the last clear; it
      stays open until a summary, a discard or a clear. */
  lemma PendingAfterStep(mask: Mask, cap: nat, ops: seq<Op>, op: Op)
    ensures var before := Run(mask, cap, ops);
            var after := Next(mask, cap, before, op);
            PendingSummary(after.st).Some? <==>
            (op.RecordCommand? || op.RecordOutput? || op.Trim?) &&
            (PendingSummary(before.st).Some? || DropCount(mask, cap, before.st, op) > 0)
    ensures var after := Next(mask, cap, Run(mask, cap, ops), op);
            PendingSummary(after.st).Some? ==>
              PendingSummary(after.st).value ==
              (Dropped(after.st.entries), Lossy(LastBytes(after.span, LAST_DROPPED_CAP)))
  {
    var s := Run(mask, cap, ops);
    RunKeepsInv(mask, cap, ops);
    StepKeepsInv(mask, cap, s, op);
    PendingStep(mask, cap, s, op);
  }

  // ---------- What is shown ----------

  lemma {:induction false} RenderEntriesConcat(a: seq<Entry>, b: seq<Entry>)
    ensures RenderEntries(a + b) == RenderEntries(a) + RenderEntries(b)
  {
    if a == [] {
      EmptyUnit(b);
      EmptyUnit(RenderEntries(b));
    } else {
      RenderEntriesConcat(a[1..], b);
      FirstOfConcat(a, b);
      Reassociate(RenderEntry(a[0]), RenderEntries(a[1..]), RenderEntries(b));
    }
  }

  /** The text of every command since the last clear is the text of the dropped ones followed by what
      is shown after the marker: nothing else is lost, repeated or reordered. */
  lemma ShownHistory(mask: Mask, cap: nat, ops: seq<Op>)
    ensures var s := Run(mask, cap, ops);
            var k := Dropped(s.st.entries);
            var shown := RenderEntries(s.st.entries[OldestCommand(s.st.entries)..]);
            k <= |s.commands| && RenderEntries(s.commands) == RenderEntries(s.commands[..k]) + shown &&
            RenderEntries(s.st.entries) ==
              (if HasMarker(s.st.entries) then RenderMarker(k, s.st.entries[0].summary) else []) + shown
  {
    var s := Run(mask, cap, ops);
    var k := Dropped(s.st.entries);
    RunKeepsInv(mask, cap, ops);
    RenderEntriesConcat(s.commands[..k], s.commands[k..]);
    SplitAt(s.commands, k);
    if !HasMarker(s.st.entries) {
      SplitAt(s.st.entries, 0);
      EmptyUnit(RenderEntries(s.st.entries));
    }
  }

  // ---------- How the pending text relates to the pending count ----------

  /** A summary that finds a marker, or a discard, empties the side buffer. */
  predicate Drains(st: State, op: Op) {
    op.DiscardDroppedSpan? || (op.SetMarkerSummary? && HasMarker(st.entries))
  }

  /** Where the side buffer starts, by whichever came last. A clear keeps the text it finds there and
      restarts the count; a drain keeps the count and restarts the text. So: the text carried over
      from before a clear, and how many of the counted commands the text lacks. */
  ghost function Origin(mask: Mask, cap: nat, ops: seq<Op>): (Bytes, nat) {
    if ops == [] then ([], 0)
    else
      var before, op := Run(mask, cap, ops[..|ops| - 1]), ops[|ops| - 1];
      if op.Clear? then (before.span, 0)
      else if Drains(before.st, op) then ([], Dropped(before.st.entries))
      else Origin(mask, cap, ops[..|ops| - 1])
  }

  lemma CountOnlyGrows(mask: Mask, cap: nat, s: Session, op: Op)
    requires Inv(s) && !op.Clear?
    ensures Dropped(s.st.entries) <= Dropped(Apply(mask, cap, s.st, op).entries)
  {
    match op
    case RecordOutput(output) =>
      var text := Masked(mask, output);
      var st := s.st.(entries := AppendOutput(s.st.entries, text));
      AppendOutputKeepsAccounts(s.st.entries, s.commands, text);
      var k := EvictionIsTheLeastTrim(st, cap);
      TrimDrops(Session(st, AppendOutput(s.commands, text), s.span), k);
    case Trim(n) => TrimDrops(s, n);
    case _ =>
  }

  lemma DroppedCommandsStay(mask: Mask, s: Session, op: Op, from: nat)
    requires Inv(s) && !op.Clear? && from <= Dropped(s.st.entries)
    ensures var k, commands := Dropped(s.st.entries), CommandsAfter(mask, s.commands, op);
            k <= |s.commands| <= |commands| && commands[from..k] == s.commands[from..k]
  {
  }

  /** The side buffer's text starts at its origin. */
  ghost predicate StartsAt(s: Session, carried: Bytes, from: nat) {
    var k := Dropped(s.st.entries);
    from <= k <= |s.commands| && s.span == carried + RenderEntries(s.commands[from..k])
  }

  lemma SpanGrows(carried: Bytes, commands: seq<Entry>, from: nat, k: nat, to: nat)
    requires from <= k <= to <= |commands|
    ensures (carried + RenderEntries(commands[from..k])) + RenderEntries(commands[k..to]) ==
            carried + RenderEntries(commands[from..to])
  {
    assert commands[from..k] + commands[k..to] == commands[from..to];
    RenderEntriesConcat(commands[from..k], commands[k..to]);
    Reassociate(carried, RenderEntries(commands[from..k]), RenderEntries(commands[k..to]));
  }

  lemma StepKeepsOrigin(mask: Mask, cap: nat, s: Session, op: Op, carried: Bytes, from: nat)
    requires Inv(s) && StartsAt(s, carried, from) && !op.Clear? && !Drains(s.st, op)
    ensures StartsAt(Next(mask, cap, s, op), carried, from)
  {
    var s' := Next(mask, cap, s, op);
    var k, to := Dropped(s.st.entries), Dropped(s'.st.entries);
    StepKeepsInv(mask, cap, s, op);
    CountOnlyGrows(mask, cap, s, op);
    DroppedCommandsStay(mask, s, op, from);
    if !op.SetMarkerSummary? {
      SpanGrows(carried, s'.commands, from, k, to);
    }
  }

  lemma ClearStarts(mask: Mask, cap: nat, s: Session)
    ensures StartsAt(Next(mask, cap, s, Clear), s.span, 0)
  {
    EmptyUnit(s.span);
  }

  lemma DrainStarts(mask: Mask, cap: nat, s: Session, op: Op)
    requires Inv(s) && Drains(s.st, op)
    ensures StartsAt(Next(mask, cap, s, op), [], Dropped(s.st.entries))
  {
    NothingDropped([], s.commands, Dropped(s.st.entries));
  }

  lemma {:induction false} RunStartsAtOrigin(mask: Mask, cap: nat, ops: seq<Op>)
    ensures var (carried, from) := Origin(mask, cap, ops);
            StartsAt(Run(mask, cap, ops), carried, from) && (carried == [] || from == 0)
  {
    if ops != [] {
      var before, op := ops[..|ops| - 1], ops[|ops| - 1];
      var (carried, from) := Origin(mask, cap, before);
      RunKeepsInv(mask, cap, before);
      RunStartsAtOrigin(mask, cap, before);
      if op.Clear? {
        ClearStarts(mask, cap, Run(mask, cap, before));
      } else if Drains(Run(mask, cap, before).st, op) {
        DrainStarts(mask, cap, Run(mask, cap, before), op);
      } else {
        StepKeepsOrigin(mask, cap, Run(mask, cap, before), op, carried, from);
      }
    }
  }

  /** Text in front of b shows in the last bytes unless there is none or b fills them alone. */
  lemma LastBytesOfBoth(a: Bytes, b: Bytes, cap: nat)
    ensures LastBytes(a + b, cap) == LastBytes(b, cap) <==> a == [] || |b| >= cap
  {
    if a == [] {
      EmptyUnit(b);
    } else if |b| >= cap {
      LastBytesOfSuffix(a + b, |a|, cap);
      SplitsBack(a, b);
    }
  }

  /** Then it shows in the decoded text as well, when b is a rendering of commands. */
  lemma LossyLastBytesOfBoth(a: Bytes, b: Bytes, cap: nat)
    requires b != [] && b[0] == PROMPT[0]
    ensures Lossy(LastBytes(a + b, cap)) == Lossy(LastBytes(b, cap)) <==> a == [] || |b| >= cap
  {
    LastBytesOfBoth(a, b, cap);
    if a != [] && |b| < cap {
      var front := a[|a| - (|LastBytes(a + b, cap)| - |b|)..];
      assert LastBytes(a + b, cap) == front + b && front != [];
      LossyConcat(front, b);
    }
  }

  lemma RenderingStarts(commands: seq<Entry>, from: nat, to: nat)
    requires AllCommands(commands) && from < to <= |commands|
    ensures RenderEntries(commands[from..to]) != [] && RenderEntries(commands[from..to])[0] == PROMPT[0]
  {
    assert commands[from..to][0] == commands[from];
    assert RenderEntry(commands[from])[0] == PROMPT[0];
  }

  /** Two texts that end alike, one of them with nothing in front. */
  lemma SameLastBytes(carried: Bytes, drained: Bytes, held: Bytes, cap: nat)
    requires carried == [] || drained == []
    ensures LastBytes(carried + held, cap) == LastBytes(drained + held, cap) <==>
            (carried == [] && drained == []) || |held| >= cap
  {
    LastBytesOfBoth(carried, held, cap);
    LastBytesOfBoth(drained, held, cap);
    EmptyUnit(held);
  }

  lemma SameLossyLastBytes(carried: Bytes, drained: Bytes, held: Bytes, cap: nat)
    requires carried == [] || drained == []
    requires held != [] && held[0] == PROMPT[0]
    ensures Lossy(LastBytes(carried + held, cap)) == Lossy(LastBytes(drained + held, cap)) <==>
            (carried == [] && drained == []) || |held| >= cap
  {
    LossyLastBytesOfBoth(carried, held, cap);
    LossyLastBytesOfBoth(drained, held, cap);
    EmptyUnit(held);
  }

  /** The counted commands are the drained ones and then the held ones. */
  lemma CountedText(commands: seq<Entry>, from: nat, k: nat)
    requires AllCommands(commands) && from <= k <= |commands|
    ensures RenderEntries(commands[..k]) == RenderEntries(commands[..from]) + RenderEntries(commands[from..k])
    ensures RenderEntries(commands[..from]) == [] <==> from == 0
  {
    assert commands[..k] == commands[..from] + commands[from..k];
    RenderEntriesConcat(commands[..from], commands[from..k]);
    if from > 0 {
      RenderingStarts(commands, 0, from);
      assert commands[..from] == commands[0..from];
    }
  }

  lemma BufferHolds(mask: Mask, cap: nat, ops: seq<Op>, s: Session, carried: Bytes, from: nat, k: nat)
    requires s == Run(mask, cap, ops) && (carried, from) == Origin(mask, cap, ops) && k == Dropped(s.st.entries)
    ensures from <= k <= |s.commands| && AllCommands(s.commands) && (carried == [] || from == 0)
    ensures s.st.lastDropped == LastBytes(carried + RenderEntries(s.commands[from..k]), LAST_DROPPED_CAP)
    ensures PendingSummary(s.st).Some? ==> from < k
  {
    RunKeepsInv(mask, cap, ops);
    RunStartsAtOrigin(mask, cap, ops);
    if from == k {
      NothingDropped(carried, s.commands, from);
    }
  }

  /** After every run the side buffer holds the last bytes of what was carried over a clear and of the
      counted commands that were not drained. That is the text of exactly the counted commands if and
      only if nothing was carried over and nothing counted was drained, or the commands it holds fill it
      alone. */
  lemma BufferExactly(mask: Mask, cap: nat, ops: seq<Op>, s: Session, carried: Bytes, from: nat, k: nat)
    requires s == Run(mask, cap, ops) && (carried, from) == Origin(mask, cap, ops) && k == Dropped(s.st.entries)
    ensures from <= k <= |s.commands|
    ensures s.st.lastDropped == LastBytes(carried + RenderEntries(s.commands[from..k]), LAST_DROPPED_CAP)
    ensures s.st.lastDropped == LastBytes(RenderEntries(s.commands[..k]), LAST_DROPPED_CAP) <==>
            (carried == [] && from == 0) || |RenderEntries(s.commands[from..k])| >= LAST_DROPPED_CAP
  {
    BufferHolds(mask, cap, ops, s, carried, from, k);
    CountedText(s.commands, from, k);
    SameLastBytes(carried, RenderEntries(s.commands[..from]), RenderEntries(s.commands[from..k]), LAST_DROPPED_CAP);
  }

  /** And the same holds of the text that a pending summary returns, lossily decoded as it is. */
  lemma PendingTextExactly(mask: Mask, cap: nat, ops: seq<Op>, s: Session, carried: Bytes, from: nat, k: nat)
    requires s == Run(mask, cap, ops) && (carried, from) == Origin(mask, cap, ops) && k == Dropped(s.st.entries)
    ensures from <= k <= |s.commands|
    ensures PendingSummary(s.st).Some? ==>
              PendingSummary(s.st).value ==
              (k, Lossy(LastBytes(carried + RenderEntries(s.commands[from..k]), LAST_DROPPED_CAP)))
    ensures PendingSummary(s.st).Some? ==>
              (PendingSummary(s.st).value ==
               (k, Lossy(LastBytes(RenderEntries(s.commands[..k]), LAST_DROPPED_CAP))) <==>
               (carried == [] && from == 0) || |RenderEntries(s.commands[from..k])| >= LAST_DROPPED_CAP)
  {
    BufferHolds(mask, cap, ops, s, carried, from, k);
    if PendingSummary(s.st).Some? {
      CountedText(s.commands, from, k);
      RenderingStarts(s.commands, from, k);
      SameLossyLastBytes(carried, RenderEntries(s.commands[..from]), RenderEntries(s.commands[from..k]),
                         LAST_DROPPED_CAP);
    }
  }

  lemma RunNext(mask: Mask, cap: nat, ops: seq<Op>, op: Op)
    ensures Run(mask, cap, ops + [op]) == Next(mask, cap, Run(mask, cap, ops), op)
  {
    LastOfConcat(ops, op);
  }

  lemma NextTrim(mask: Mask, cap: nat, s: Session, k: nat)
    requires Inv(s) && CanDrop(s.st.entries) && k == Dropped(s.st.entries)
    ensures k + 1 < |s.commands| && Next(mask, cap, s, Op.Trim(1)).st == DropOldest(s.st)
    ensures DropOldest(s.st).entries == [Elided(k + 1, None)] + s.commands[k + 1..]
  {
    DropTakesOldest(s.st, s.commands, k);
    TrimOne(s.st, 1);
  }

  lemma TrimByOne(mask: Mask, cap: nat, s: Session, k: nat)
    requires Inv(s) && CanDrop(s.st.entries) && k == Dropped(s.st.entries)
    ensures k < |s.commands|
    ensures var text := s.span + RenderEntry(s.commands[k]);
            PendingSummary(Next(mask, cap, s, Op.Trim(1)).st) == Some((k + 1, Lossy(LastBytes(text, LAST_DROPPED_CAP))))
  {
    var text := s.span + RenderEntry(s.commands[k]);
    NextTrim(mask, cap, s, k);
    DropStashes(s.st, s.commands, s.span, k);
    assert text[|s.span|] == PROMPT[0];
  }

  /** The first drop after a summary offers the new text alone, under the count of everything. */
  lemma DropAfterSummary(mask: Mask, cap: nat, ops: seq<Op>, text: Bytes)
    requires var st := Run(mask, cap, ops).st; HasMarker(st.entries) && CanDrop(st.entries)
    ensures var s := Run(mask, cap, ops);
            var k, after := Dropped(s.st.entries), Run(mask, cap, ops + [SetMarkerSummary(text)] + [Op.Trim(1)]);
            0 < k < |s.commands| &&
            PendingSummary(after.st) == Some((k + 1, Lossy(LastBytes(RenderEntry(s.commands[k]), LAST_DROPPED_CAP))))
  {
    var s := Run(mask, cap, ops);
    var summarized := Next(mask, cap, s, SetMarkerSummary(text));
    RunKeepsInv(mask, cap, ops);
    StepKeepsInv(mask, cap, s, SetMarkerSummary(text));
    RunNext(mask, cap, ops, SetMarkerSummary(text));
    RunNext(mask, cap, ops + [SetMarkerSummary(text)], Op.Trim(1));
    TrimByOne(mask, cap, summarized, Dropped(s.st.entries));
    EmptyUnit(RenderEntry(s.commands[Dropped(s.st.entries)]));
  }

  /** The first drop after a clear counts one, over all the text the clear left behind. */
  lemma DropAfterClear(mask: Mask, cap: nat, ops: seq<Op>, a: Bytes, b: Bytes)
    ensures var s := Run(mask, cap, ops);
            var after := Run(mask, cap, ops + [Clear] + [RecordCommand(a)] + [RecordCommand(b)] + [Op.Trim(1)]);
            PendingSummary(after.st) ==
            Some((1, Lossy(LastBytes(s.span + RenderCommand(mask(a), []), LAST_DROPPED_CAP))))
  {
    var s := Run(mask, cap, ops);
    var ops' := ops + [Clear] + [RecordCommand(a)] + [RecordCommand(b)];
    RunNext(mask, cap, ops, Clear);
    RunNext(mask, cap, ops + [Clear], RecordCommand(a));
    RunNext(mask, cap, ops + [Clear] + [RecordCommand(a)], RecordCommand(b));
    RunNext(mask, cap, ops', Op.Trim(1));
    RunKeepsInv(mask, cap, ops');
    ClearedThenTwo(mask, cap, s, a, b);
    TrimByOne(mask, cap, Run(mask, cap, ops'), 0);
  }

  lemma ClearedThenTwo(mask: Mask, cap: nat, s: Session, a: Bytes, b: Bytes)
    ensures var two := Next(mask, cap, Next(mask, cap, Next(mask, cap, s, Clear), RecordCommand(a)), RecordCommand(b));
            two.st.entries == two.commands == [Command(mask(a), []), Command(mask(b), [])] && two.span == s.span
  {
    var one := Next(mask, cap, Next(mask, cap, s, Clear), RecordCommand(a));
    assert one.commands == [Command(mask(a), [])];
    NothingDropped(s.span, one.commands, 0);
    NothingDropped(s.span, one.commands + [Command(mask(b), [])], 0);
  }
}
