/** The session transcript: a sliding window of commands with an elision marker, a summary slot and a
    bounded buffer of the text that was dropped. */
module Transcripts {
  import opened Results
  import opened ByteStrings
  import opened Utf8Text
  import opened Repetition
  import Decimals
  import Seqs

  const PROMPT: Bytes := [0x63, 0x6C, 0x61, 0x6E, 0x6B, 0x24, 0x20] // "clank$ "
  const LAST_DROPPED_CAP: nat := 128 * 1024

  datatype Entry =
    | Command(command: Bytes, output: Bytes)
    | Elided(count: nat, summary: Option<Bytes>)

  /** The window and the buffer of dropped text: the value of a transcript. */
  datatype State = State(entries: seq<Entry>, lastDropped: Bytes)

  // ---------- Costs ----------

  /** About four bytes to a token, rounded up. */
  function EstTokens(byteLen: nat): (n: nat)
    ensures 4 * n - 4 < byteLen <= 4 * n
  {
    (byteLen + 3) / 4
  }

  function EntryTokens(e: Entry): nat {
    match e
    case Command(command, output) => EstTokens(|command| + |output|)
    case Elided(_, summary) => if summary.Some? then EstTokens(|summary.value|) else 0
  }

  function TotalTokens(entries: seq<Entry>): nat {
    if entries == [] then 0 else EntryTokens(entries[0]) + TotalTokens(entries[1..])
  }

  /** The bytes an entry holds that are not of the shell's own making. */
  function TextBytes(e: Entry): nat {
    match e
    case Command(command, output) => |command| + |output|
    case Elided(_, Some(text)) => |text|
    case Elided(_, None) => 0
  }

  function AllTextBytes(entries: seq<Entry>): nat {
    if entries == [] then 0 else TextBytes(entries[0]) + AllTextBytes(entries[1..])
  }

  /** A window's cost bounds its text from both sides. */
  lemma {:induction false} TokensBoundText(entries: seq<Entry>)
    ensures 4 * TotalTokens(entries) - 3 * |entries| <= AllTextBytes(entries) <= 4 * TotalTokens(entries)
  {
    if entries != [] {
      TokensBoundText(entries[1..]);
    }
  }

  // ---------- Dropping the oldest command ----------

  predicate HasMarker(entries: seq<Entry>) {
    entries != [] && entries[0].Elided?
  }

  function OldestCommand(entries: seq<Entry>): nat {
    if HasMarker(entries) then 1 else 0
  }

  /** The last entry is never dropped. */
  predicate CanDrop(entries: seq<Entry>) {
    OldestCommand(entries) + 1 < |entries|
  }

  function RenderCommand(command: Bytes, output: Bytes): Bytes {
    PROMPT + command + [0x0A] + output
  }

  function LastBytes(s: Bytes, cap: nat): (r: Bytes)
    ensures |r| == if |s| <= cap then |s| else cap
  {
    if |s| > cap then s[|s| - cap..] else s
  }

  function Stash(lastDropped: Bytes, e: Entry): Bytes {
    match e
    case Command(command, output) => LastBytes(lastDropped + RenderCommand(command, output), LAST_DROPPED_CAP)
    case Elided(_, _) => lastDropped
  }

  /** Fold one more dropped entry into the marker, which loses any summary it had. */
  function BumpMarker(entries: seq<Entry>): seq<Entry> {
    if HasMarker(entries) then [Elided(entries[0].count + 1, None)] + entries[1..]
    else [Elided(1, None)] + entries
  }

  function DropOldest(st: State): State
    requires CanDrop(st.entries)
  {
    var i := OldestCommand(st.entries);
    State(BumpMarker(st.entries[..i] + st.entries[i + 1..]), Stash(st.lastDropped, st.entries[i]))
  }

  /** What is left to drop: the commands of a well-formed window. */
  function Droppable(entries: seq<Entry>): nat {
    |entries| - OldestCommand(entries)
  }

  lemma DropOldestShrinks(st: State)
    requires CanDrop(st.entries)
    ensures Droppable(DropOldest(st).entries) < Droppable(st.entries)
  {
  }

  lemma TotalTokensFirst(e: Entry, rest: seq<Entry>)
    ensures TotalTokens([e] + rest) == EntryTokens(e) + TotalTokens(rest)
  {
    assert ([e] + rest)[1..] == rest;
  }

  /** A drop frees what the dropped command costs, and also what the marker's summary costs. */
  lemma DropFreesTokens(st: State)
    requires CanDrop(st.entries) && forall k :: 0 < k < |st.entries| ==> st.entries[k].Command?
    ensures var i := OldestCommand(st.entries);
            TotalTokens(DropOldest(st).entries) + EntryTokens(st.entries[i]) +
            (if i == 1 then EntryTokens(st.entries[0]) else 0) ==
            TotalTokens(st.entries)
  {
    if HasMarker(st.entries) {
      var marker, rest := Elided(st.entries[0].count + 1, None), st.entries[2..];
      assert st.entries[..1] + rest == [st.entries[0]] + rest && ([st.entries[0]] + rest)[1..] == rest;
      assert st.entries[1..] == [st.entries[1]] + rest;
      TotalTokensFirst(st.entries[1], rest);
      TotalTokensFirst(marker, rest);
    } else {
      var rest := st.entries[1..];
      assert st.entries[..0] + rest == rest && rest[0] == st.entries[1];
      TotalTokensFirst(Elided(1, None), rest);
    }
  }

  // ---------- Trimming by count, and evicting by cost ----------

  predicate Able(st: State) {
    CanDrop(st.entries)
  }

  function Drop(st: State): State {
    if Able(st) then DropOldest(st) else st
  }

  function TrimmedState(st: State, n: nat): State {
    Repeat(Able, Drop, st, n)
  }

  function TrimmedCount(st: State, n: nat): nat {
    Taken(Able, Drop, st, n)
  }

  lemma TrimOne(st: State, n: nat)
    requires n > 0 && CanDrop(st.entries)
    ensures TrimmedState(st, n) == TrimmedState(DropOldest(st), n - 1)
    ensures TrimmedCount(st, n) == 1 + TrimmedCount(DropOldest(st), n - 1)
  {
  }

  lemma TrimStops(st: State, n: nat)
    requires !CanDrop(st.entries)
    ensures TrimmedState(st, n) == st && TrimmedCount(st, n) == 0
  {
  }

  predicate Settled(st: State, cap: nat) {
    TotalTokens(st.entries) <= cap || !CanDrop(st.entries)
  }

  function Enforced(st: State, cap: nat): State
    decreases Droppable(st.entries)
  {
    if Settled(st, cap) then st
    else
      DropOldestShrinks(st);
      Enforced(DropOldest(st), cap)
  }

  /** Trimming twice is trimming once by the sum, in state and in count. */
  lemma TrimAdds(st: State, a: nat, b: nat)
    ensures TrimmedState(TrimmedState(st, a), b) == TrimmedState(st, a + b)
    ensures TrimmedCount(st, a) + TrimmedCount(TrimmedState(st, a), b) == TrimmedCount(st, a + b)
  {
    RepeatAdds(Able, Drop, st, a, b);
  }

  /** Eviction is the trim by the least count that settles the window; nothing more is dropped. */
  lemma {:induction false} EvictionIsTheLeastTrim(st: State, cap: nat) returns (k: nat)
    ensures Enforced(st, cap) == TrimmedState(st, k) && TrimmedCount(st, k) == k
    ensures Settled(TrimmedState(st, k), cap)
    ensures forall j :: 0 <= j < k ==> !Settled(TrimmedState(st, j), cap)
    decreases Droppable(st.entries)
  {
    if Settled(st, cap) {
      k := 0;
    } else {
      DropOldestShrinks(st);
      k := EvictionIsTheLeastTrim(DropOldest(st), cap);
      k := k + 1;
      TrimOne(st, k);
      forall j | 0 <= j < k
        ensures !Settled(TrimmedState(st, j), cap)
      {
        if j > 0 {
          TrimOne(st, j);
        }
      }
    }
  }

  // ---------- The operations ----------

  /** Secret masking is an arbitrary function of the text. */
  type Mask = Bytes -> Bytes

  datatype Op =
    | RecordCommand(command: Bytes)
    | RecordOutput(output: Bytes)
    | Trim(n: nat)
    | Clear
    | SetMarkerSummary(text: Bytes)
    | DiscardDroppedSpan

  /** Output that is not UTF-8 is recorded as it is. */
  function Masked(mask: Mask, output: Bytes): Bytes {
    if Utf8(output) then mask(output) else output
  }

  function AppendOutput(entries: seq<Entry>, output: Bytes): seq<Entry> {
    if entries != [] && entries[|entries| - 1].Command? then
      var last := entries[|entries| - 1];
      entries[..|entries| - 1] + [Command(last.command, last.output + output)]
    else entries
  }

  function Apply(mask: Mask, cap: nat, st: State, op: Op): State {
    match op
    case RecordCommand(command) => st.(entries := st.entries + [Command(mask(command), [])])
    case RecordOutput(output) => Enforced(st.(entries := AppendOutput(st.entries, Masked(mask, output))), cap)
    case Trim(n) => TrimmedState(st, n)
    case Clear => st.(entries := [])
    case SetMarkerSummary(text) =>
      if HasMarker(st.entries) then State([Elided(st.entries[0].count, Some(text))] + st.entries[1..], [])
      else st
    case DiscardDroppedSpan => st.(lastDropped := [])
  }

  /** The span awaiting a summary: how many entries, and their text, decoded lossily. */
  function PendingSummary(st: State): Option<(nat, string)> {
    if HasMarker(st.entries) && st.entries[0].summary.None? && st.lastDropped != [] then
      Some((st.entries[0].count, Lossy(st.lastDropped)))
    else None
  }

  // ---------- Rendering ----------

  function Decimal(n: nat): Bytes {
    var digits := Decimals.Digits(n);
    seq(|digits|, i requires 0 <= i < |digits| => (0x30 + digits[i]) as byte)
  }

  function RenderMarker(count: nat, summary: Option<Bytes>): Bytes {
    match summary
    case Some(text) =>
      Ascii("[summary of ") + Decimal(count) + Ascii(" earlier entries]\n") + text +
      if text == [] || text[|text| - 1] != 0x0A then [0x0A] else []
    case None => Ascii("[") + Decimal(count) + Ascii(" earlier entries dropped]\n")
  }

  function RenderEntry(e: Entry): Bytes {
    match e
    case Command(command, output) => RenderCommand(command, output)
    case Elided(count, summary) => RenderMarker(count, summary)
  }

  function RenderEntries(entries: seq<Entry>): Bytes {
    if entries == [] then [] else RenderEntry(entries[0]) + RenderEntries(entries[1..])
  }

  class Transcript {
    var entries: seq<Entry>
    const capTokens: nat
    var lastDropped: Bytes
    const mask: Mask

    ghost function Value(): State
      reads this
    {
      State(entries, lastDropped)
    }

    constructor (capTokens: nat, mask: Mask)
      ensures Value() == State([], []) && this.capTokens == capTokens && this.mask == mask
    {
      entries, lastDropped := [], [];
      this.capTokens, this.mask := capTokens, mask;
    }

    method RecordCommand(command: Bytes)
      modifies this
      ensures Value() == Apply(mask, capTokens, old(Value()), Op.RecordCommand(command))
    {
      entries := entries + [Command(mask(command), [])];
    }

    method RecordOutput(output: Bytes)
      modifies this
      ensures Value() == Apply(mask, capTokens, old(Value()), Op.RecordOutput(output))
    {
      if |entries| > 0 && entries[|entries| - 1].Command? {
        var last := entries[|entries| - 1];
        var text := if Utf8(output) then mask(output) else output;
        entries := entries[..|entries| - 1] + [last.(output := last.output + text)];
      }
      EnforceCap();
    }

    method EnforceCap()
      modifies this
      ensures Value() == Enforced(old(Value()), capTokens)
    {
      while TotalTokens(entries) > capTokens
        invariant Enforced(Value(), capTokens) == Enforced(old(Value()), capTokens)
        decreases Droppable(entries)
      {
        var oldest := if |entries| > 0 && entries[0].Elided? then 1 else 0;
        if oldest >= |entries| || oldest == |entries| - 1 {
          break;
        }
        DropOldestShrinks(Value());
        EvictAt(oldest);
      }
    }

    /** Remove the oldest command, stash its text and bump the leading marker. */
    method EvictAt(oldest: nat)
      requires CanDrop(entries) && oldest == OldestCommand(entries)
      modifies this
      ensures Value() == DropOldest(old(Value()))
    {
      var dropped := entries[oldest];
      entries := entries[..oldest] + entries[oldest + 1..];
      StashDropped(dropped);
      if |entries| > 0 && entries[0].Elided? {
        entries := [Elided(entries[0].count + 1, None)] + entries[1..];
      } else {
        entries := [Elided(1, None)] + entries;
      }
    }

    method StashDropped(e: Entry)
      modifies `lastDropped
      ensures lastDropped == Stash(old(lastDropped), e)
    {
      if e.Command? {
        lastDropped := lastDropped + PROMPT;
        lastDropped := lastDropped + e.command;
        lastDropped := lastDropped + [0x0A];
        lastDropped := lastDropped + e.output;
        assert lastDropped == old(lastDropped) + RenderCommand(e.command, e.output);
        if |lastDropped| > LAST_DROPPED_CAP {
          var cut := |lastDropped| - LAST_DROPPED_CAP;
          lastDropped := lastDropped[cut..];
        }
      }
    }

    method Trim(n: nat) returns (dropped: nat)
      modifies this
      ensures Value() == Apply(mask, capTokens, old(Value()), Op.Trim(n))
      ensures dropped == TrimmedCount(old(Value()), n)
    {
      dropped := 0;
      for i := 0 to n
        invariant dropped == i
        invariant TrimmedState(Value(), n - i) == TrimmedState(old(Value()), n)
        invariant dropped + TrimmedCount(Value(), n - i) == TrimmedCount(old(Value()), n)
      {
        var oldest := if |entries| > 0 && entries[0].Elided? then 1 else 0;
        if oldest >= |entries| || oldest == |entries| - 1 {
          TrimStops(Value(), n - i);
          break;
        }
        ghost var before := Value();
        EvictAt(oldest);
        dropped := dropped + 1;
        TrimOne(before, n - i);
      }
    }

    method Render() returns (out: Bytes)
      ensures out == RenderEntries(entries)
    {
      out := [];
      assert entries[0..] == entries;
      for i := 0 to |entries|
        invariant out + RenderEntries(entries[i..]) == RenderEntries(entries)
      {
        Seqs.FirstFrom(entries, i);
        Seqs.Reassociate(out, RenderEntry(entries[i]), RenderEntries(entries[i + 1..]));
        out := out + match entries[i]
                     case Elided(count, summary) => RenderMarker(count, summary)
                     case Command(command, output) => RenderCommand(command, output);
      }
      Seqs.EmptyUnit(out);
    }

    method Clear()
      modifies this
      ensures Value() == Apply(mask, capTokens, old(Value()), Op.Clear)
    {
      entries := [];
    }

    method DiscardDroppedSpan()
      modifies this
      ensures Value() == Apply(mask, capTokens, old(Value()), Op.DiscardDroppedSpan)
    {
      lastDropped := [];
    }

    method GetPendingSummary() returns (span: Option<(nat, string)>)
      ensures span == PendingSummary(Value())
    {
      if |entries| > 0 && entries[0].Elided? && entries[0].summary == None && lastDropped != [] {
        return Some((entries[0].count, Lossy(lastDropped)));
      }
      return None;
    }

    method SetMarkerSummary(summary: Bytes)
      modifies this
      ensures Value() == Apply(mask, capTokens, old(Value()), Op.SetMarkerSummary(summary))
    {
      if |entries| > 0 && entries[0].Elided? {
        entries := [entries[0].(summary := Some(summary))] + entries[1..];
        lastDropped := [];
      }
    }
  }
}
