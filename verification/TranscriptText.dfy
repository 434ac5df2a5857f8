/** What a transcript's text says when it is read: the literal prompt, command, output and marker words,
    without a word about how they are put together. */
module TranscriptText {
  import opened Results
  import opened ByteStrings
  import opened ByteLines
  import opened Seqs
  import opened Transcripts
  import opened TranscriptRuns

  // ---------- Reading ----------

  /** From there on, the bytes spell these words. */
  predicate Spells(s: Bytes, at: nat, words: string) {
    at + |words| <= |s| && forall i :: 0 <= i < |words| ==> s[at + i] as int == words[i] as int
  }

  /** The number that decimal digits stand for. */
  function CountIn(digits: Bytes): int {
    if digits == [] then 0 else 10 * CountIn(digits[..|digits| - 1]) + (digits[|digits| - 1] as int - '0' as int)
  }

  predicate AllDigits(digits: Bytes) {
    forall i :: 0 <= i < |digits| ==> '0' as int <= digits[i] as int <= '9' as int
  }

  // ---------- A command ----------

  /** The first line is the prompt and the command; what follows it is the output. */
  lemma CommandReads(command: Bytes, output: Bytes)
    requires OneLine(command)
    ensures var text := RenderEntry(Command(command, output));
            var n := LineLength(text);
            Spells(text, 0, "clank$ ") && n == 7 + |command| < |text| &&
            text[7..n] == command && text[n + 1..] == output
  {
    LineLengthOf(PROMPT + command, output);
    assert RenderEntry(Command(command, output)) == (PROMPT + command) + ([0x0A] + output);
  }

  // ---------- A marker ----------

  lemma {:induction false} CountReads(count: nat)
    ensures var digits := Decimal(count);
            digits != [] && AllDigits(digits) && CountIn(digits) == count
  {
    if count < 10 {
      assert Decimal(count)[..0] == [];
    } else {
      CountReads(count / 10);
      assert Decimal(count) == Decimal(count / 10) + [(0x30 + count % 10) as byte];
    }
  }

  /** The words before, these digits, the words after, and the rest. */
  predicate ReadsAt(s: Bytes, before: string, digits: Bytes, after: string, rest: Bytes) {
    var d := |before| + |digits|;
    |s| == d + |after| + |rest| && Spells(s, 0, before) && s[|before|..d] == digits && Spells(s, d, after) &&
    s[d + |after|..] == rest
  }

  /** The words before, a number in decimal, the words after, and the rest. */
  ghost predicate ReadsAround(s: Bytes, before: string, count: nat, after: string, rest: Bytes) {
    exists digits :: ReadsAt(s, before, digits, after, rest) &&
                     digits != [] && AllDigits(digits) && CountIn(digits) == count
  }

  lemma PiecesReadAt(before: string, digits: Bytes, after: string, rest: Bytes, s: Bytes)
    requires forall i :: 0 <= i < |before| ==> before[i] as int < 0x80
    requires forall i :: 0 <= i < |after| ==> after[i] as int < 0x80
    requires s == Ascii(before) + digits + Ascii(after) + rest
    ensures ReadsAt(s, before, digits, after, rest)
  {
  }

  /** The text, with a newline if it does not end in one. */
  function WithNewline(words: Bytes): Bytes {
    if words != [] && words[|words| - 1] == 0x0A then words else words + [0x0A]
  }

  lemma BareMarkerReads(count: nat)
    ensures ReadsAround(RenderEntry(Elided(count, None)), "[", count, " earlier entries dropped]\n", [])
  {
    var text := RenderEntry(Elided(count, None));
    CountReads(count);
    EmptyUnit(text);
    PiecesReadAt("[", Decimal(count), " earlier entries dropped]\n", [], text);
  }

  lemma SummaryReads(count: nat, words: Bytes)
    ensures var text := RenderEntry(Elided(count, Some(words)));
            ReadsAround(text, "[summary of ", count, " earlier entries]\n", WithNewline(words))
  {
    var text, rest := RenderEntry(Elided(count, Some(words))), WithNewline(words);
    CountReads(count);
    assert text == Ascii("[summary of ") + Decimal(count) + Ascii(" earlier entries]\n") + rest;
    PiecesReadAt("[summary of ", Decimal(count), " earlier entries]\n", rest, text);
  }

  /** A bare marker says how many entries were dropped; one with a summary says how many it summarizes,
      and then the summary's text stands whole, with a newline if it has none. */
  lemma MarkerReads(count: nat, words: Bytes)
    ensures ReadsAround(RenderEntry(Elided(count, None)), "[", count, " earlier entries dropped]\n", [])
    ensures var text := RenderEntry(Elided(count, Some(words)));
            ReadsAround(text, "[summary of ", count, " earlier entries]\n", WithNewline(words))
  {
    BareMarkerReads(count);
    SummaryReads(count, words);
  }

  // ---------- The whole window, and the side buffer ----------

  /** Each entry's text stands whole between the texts of those before and after it. */
  lemma EntryStandsInWindow(before: seq<Entry>, e: Entry, after: seq<Entry>)
    ensures RenderEntries(before + ([e] + after)) == RenderEntries(before) + (RenderEntry(e) + RenderEntries(after))
  {
    RenderEntriesConcat(before, [e] + after);
    FirstIsRendered(e, after);
  }

  /** A dropped command's text reads the same in the side buffer, behind what was there. */
  lemma StashReads(lastDropped: Bytes, command: Bytes, output: Bytes)
    requires OneLine(command) && |lastDropped| + 8 + |command| + |output| <= 131072
    ensures var text := Stash(lastDropped, Command(command, output));
            lastDropped <= text &&
            var added := text[|lastDropped|..];
            var n := LineLength(added);
            Spells(added, 0, "clank$ ") && n == 7 + |command| < |added| &&
            added[7..n] == command && added[n + 1..] == output
  {
    CommandReads(command, output);
    SplitsBack(lastDropped, RenderEntry(Command(command, output)));
  }

  /** However full the buffer was, it ends with the newest output, of which it holds up to 131072 bytes. */
  lemma StashIsTheEnd(lastDropped: Bytes, command: Bytes, output: Bytes)
    ensures var text := Stash(lastDropped, Command(command, output));
            |text| <= 131072 &&
            if |output| <= 131072 then |output| <= |text| && text[|text| - |output|..] == output
            else text == output[|output| - 131072..]
  {
    var whole := lastDropped + RenderCommand(command, output);
    LastOfWhole(lastDropped, command, output, whole);
  }

  lemma LastOfWhole(lastDropped: Bytes, command: Bytes, output: Bytes, whole: Bytes)
    requires whole == lastDropped + RenderCommand(command, output)
    ensures |whole| == |lastDropped| + 8 + |command| + |output| && whole[|whole| - |output|..] == output
  {
  }

  /** A summary that is written shows at once, at the head of the window. */
  lemma SummaryIsShown(mask: Mask, cap: nat, st: State, words: Bytes, count: nat) returns (head: Bytes)
    requires HasMarker(st.entries) && st.entries[0].count == count
    ensures var entries := Apply(mask, cap, st, SetMarkerSummary(words)).entries;
            RenderEntries(entries) == head + RenderEntries(st.entries[1..])
    ensures ReadsAround(head, "[summary of ", count, " earlier entries]\n", WithNewline(words))
  {
    head := RenderEntry(Elided(count, Some(words)));
    SummaryReads(count, words);
    MarkerIsWritten(mask, cap, st, words);
    FirstIsRendered(Elided(count, Some(words)), st.entries[1..]);
  }

  lemma MarkerIsWritten(mask: Mask, cap: nat, st: State, words: Bytes)
    requires HasMarker(st.entries)
    ensures Apply(mask, cap, st, SetMarkerSummary(words)).entries ==
            [Elided(st.entries[0].count, Some(words))] + st.entries[1..]
  {
  }

  lemma FirstIsRendered(e: Entry, rest: seq<Entry>)
    ensures RenderEntries([e] + rest) == RenderEntry(e) + RenderEntries(rest)
  {
    FirstOfConcat([e], rest);
    EmptyUnit(rest);
  }

  // ---------- Recording ----------

  /** What a command's outputs add up to: text masked, anything else as it is, in order. */
  function Said(mask: Mask, outputs: seq<Bytes>): Bytes {
    if outputs == [] then []
    else
      var last := outputs[|outputs| - 1];
      Said(mask, outputs[..|outputs| - 1]) + if Utf8(last) then mask(last) else last
  }

  function OutputOps(outputs: seq<Bytes>): seq<Op> {
    Mapped((o: Bytes) => RecordOutput(o), outputs)
  }

  lemma LastAccounted(entries: seq<Entry>, commands: seq<Entry>)
    requires Accounts(entries, commands) && commands != []
    ensures entries != [] && entries[|entries| - 1] == commands[|commands| - 1]
  {
    if entries != commands {
      LastOfSuffix(commands, entries[0].count);
      LastOfSuffix(entries, 1);
    }
  }

  /** The newest entry of a window is the newest command. */
  lemma NewestIsLast(mask: Mask, cap: nat, ops: seq<Op>, s: Session)
    requires s == Run(mask, cap, ops) && s.commands != []
    ensures s.st.entries != [] && s.st.entries[|s.st.entries| - 1] == s.commands[|s.commands| - 1]
  {
    RunKeepsInv(mask, cap, ops);
    LastAccounted(s.st.entries, s.commands);
  }

  lemma OutputJoins(mask: Mask, cap: nat, s: Session, before: seq<Entry>, command: Bytes, said: Bytes, output: Bytes)
    requires s.commands == before + [Command(command, said)]
    ensures Next(mask, cap, s, RecordOutput(output)).commands ==
            before + [Command(command, said + if Utf8(output) then mask(output) else output)]
  {
    LastOfConcat(before, Command(command, said));
  }

  lemma OutputOpsLast(outputs: seq<Bytes>, last: Bytes)
    ensures OutputOps(outputs + [last]) == OutputOps(outputs) + [RecordOutput(last)]
  {
  }

  lemma {:induction false} CommandSays(mask: Mask, cap: nat, ops: seq<Op>, command: Bytes, outputs: seq<Bytes>)
    ensures Run(mask, cap, ops + [RecordCommand(command)] + OutputOps(outputs)).commands ==
            Run(mask, cap, ops).commands + [Command(mask(command), Said(mask, outputs))]
    decreases |outputs|
  {
    var start := ops + [RecordCommand(command)];
    if outputs == [] {
      EmptyUnit(start);
      RunNext(mask, cap, ops, RecordCommand(command));
      assert OutputOps(outputs) == [];
    } else {
      var before, last := outputs[..|outputs| - 1], outputs[|outputs| - 1];
      CommandSays(mask, cap, ops, command, before);
      SplitLast(outputs);
      OutputOpsLast(before, last);
      Reassociate(start, OutputOps(before), [RecordOutput(last)]);
      OutputSays(mask, cap, start + OutputOps(before), Run(mask, cap, ops).commands,
                 mask(command), Said(mask, before), last);
    }
  }

  lemma OutputSays(mask: Mask, cap: nat, ops: seq<Op>, before: seq<Entry>, command: Bytes, said: Bytes, output: Bytes)
    requires Run(mask, cap, ops).commands == before + [Command(command, said)]
    ensures Run(mask, cap, ops + [RecordOutput(output)]).commands ==
            before + [Command(command, said + if Utf8(output) then mask(output) else output)]
  {
    RunNext(mask, cap, ops, RecordOutput(output));
    OutputJoins(mask, cap, Run(mask, cap, ops), before, command, said, output);
  }

  /** In every run, right after a command and its outputs, the newest entry is the masked command with
      all its outputs in the order they came, each masked if it is text. */
  lemma OutputsAccumulate(mask: Mask, cap: nat, ops: seq<Op>, command: Bytes, outputs: seq<Bytes>)
    ensures var entries := Run(mask, cap, ops + [RecordCommand(command)] + OutputOps(outputs)).st.entries;
            entries != [] && entries[|entries| - 1] == Command(mask(command), Said(mask, outputs))
  {
    var s := Run(mask, cap, ops + [RecordCommand(command)] + OutputOps(outputs));
    CommandSays(mask, cap, ops, command, outputs);
    LastOfConcat(Run(mask, cap, ops).commands, Command(mask(command), Said(mask, outputs)));
    NewestIsLast(mask, cap, ops + [RecordCommand(command)] + OutputOps(outputs), s);
  }
}
