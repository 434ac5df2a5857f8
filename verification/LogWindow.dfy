/** The rolling tail of a log buffer: bound_tail, its contract, and what is left after any number of
    appends by each of the two sinks. Buffers are the bytes of UTF-8 text. */
module LogWindow {
  import opened ByteStrings
  import Seqs

  const NEWLINE: byte := 0x0A

  // ---------- Line boundaries ----------

  ghost predicate LineStart(s: Bytes, p: nat) {
    p <= |s| && (p == 0 || s[p - 1] == NEWLINE)
  }

  ghost predicate Terminated(s: Bytes) {
    s == [] || s[|s| - 1] == NEWLINE
  }

  /** One line: no newline except possibly the last byte. */
  ghost predicate SingleLine(s: Bytes) {
    forall k :: 0 <= k < |s| - 1 ==> s[k] != NEWLINE
  }

  /** Within the bound, or one line that cannot be cut. */
  ghost predicate Bounded(buf: Bytes, bound: nat) {
    |buf| <= bound || SingleLine(buf)
  }

  /** The first newline at or after `from`, or |s|. */
  function NextNewline(s: Bytes, from: nat): (r: nat)
    requires from <= |s|
    ensures from <= r <= |s| && (r < |s| ==> s[r] == NEWLINE)
    ensures forall k :: from <= k < r ==> s[k] != NEWLINE
    decreases |s| - from
  {
    if from == |s| || s[from] == NEWLINE then from else NextNewline(s, from + 1)
  }

  /** Where the line that ends just before `end` starts. */
  function LineStartBefore(s: Bytes, end: nat): (r: nat)
    requires end <= |s|
    ensures r <= end && LineStart(s, r)
    ensures forall k :: r <= k < end ==> s[k] != NEWLINE
    decreases end
  {
    if end == 0 || s[end - 1] == NEWLINE then end else LineStartBefore(s, end - 1)
  }

  /** The offset that bound_tail keeps from. */
  function TailStart(s: Bytes, maxBytes: nat): (r: nat)
    ensures r <= |s|
  {
    if |s| <= maxBytes then 0
    else
      var nl := NextNewline(s, |s| - maxBytes);
      if nl == |s| then 0
      else if nl + 1 == |s| then LineStartBefore(s, |s| - 1)
      else nl + 1
  }

  function BoundedTail(s: Bytes, maxBytes: nat): Bytes {
    s[TailStart(s, maxBytes)..]
  }

  // ---------- The contract of bound_tail ----------

  /** On every input the cut is on a line boundary, and something is kept unless there was nothing. */
  lemma TailIsAligned(s: Bytes, maxBytes: nat)
    ensures LineStart(s, TailStart(s, maxBytes)) && (s != [] ==> BoundedTail(s, maxBytes) != [])
  {
  }

  /** The start of the longest line-aligned tail shorter than maxBytes; |s| if only the empty one is. */
  ghost predicate LongestShortTail(s: Bytes, maxBytes: nat, r: nat) {
    LineStart(s, r) && |s| - r < maxBytes && forall p: nat :: LineStart(s, p) && |s| - p < maxBytes ==> r <= p
  }

  /** A newline-terminated buffer over the cap keeps exactly its longest line-aligned tail shorter
      than the cap, or, if that is empty, exactly its last line. */
  lemma TailIsExactly(s: Bytes, maxBytes: nat, r: nat)
    requires |s| > maxBytes > 0 && Terminated(s)
    ensures r == TailStart(s, maxBytes) <==>
            r < |s| && (LongestShortTail(s, maxBytes, r) ||
                        (LongestShortTail(s, maxBytes, |s|) && LineStart(s, r) && SingleLine(s[r..])))
  {
    var nl := NextNewline(s, |s| - maxBytes);
    assert LongestShortTail(s, maxBytes, nl + 1);
    if nl + 1 == |s| && r < |s| && LineStart(s, r) && SingleLine(s[r..]) {
      assert forall k :: r <= k < |s| - 1 ==> s[k] == s[r..][k - r];
    }
  }

  /** A buffer within the cap is left alone. */
  lemma FittingBufferIsLeftAlone(s: Bytes, maxBytes: nat)
    requires |s| <= maxBytes
    ensures BoundedTail(s, maxBytes) == s
  {
  }

  lemma Idempotent(s: Bytes, maxBytes: nat)
    ensures BoundedTail(BoundedTail(s, maxBytes), maxBytes) == BoundedTail(s, maxBytes)
  {
  }

  /** Cutting never splits a character: what is dropped and what is kept are both text. */
  lemma CutsBetweenCharacters(s: Text, maxBytes: nat)
    ensures Utf8(s[..TailStart(s, maxBytes)]) && Utf8(BoundedTail(s, maxBytes))
  {
    TailIsAligned(s, maxBytes);
    var t := TailStart(s, maxBytes);
    if t > 0 {
      CutAfterAscii(s, t - 1);
    } else {
      assert s[..t] == [] && s[t..] == s;
    }
  }

  /** "At most max_bytes" holds exactly when the buffer already fits, a line starts inside the last
      max_bytes bytes, or the cap falls exactly on the start of a terminated last line. */
  lemma FitsExactlyWhen(s: Bytes, maxBytes: nat)
    ensures |BoundedTail(s, maxBytes)| <= maxBytes <==>
            |s| <= maxBytes ||
            (exists p: nat :: |s| - maxBytes < p < |s| && LineStart(s, p)) ||
            (maxBytes > 0 && s[|s| - 1] == NEWLINE && LineStart(s, |s| - maxBytes))
  {
    if |s| > maxBytes {
      var nl := NextNewline(s, |s| - maxBytes);
      if nl + 1 < |s| {
        assert LineStart(s, nl + 1);
      }
    }
  }

  /** The documented promise, at most max_bytes unless a single line is longer, is kept exactly when
      the buffer already fits, is a single line, or has a newline among its last max_bytes bytes. */
  lemma PromiseKeptExactlyWhen(s: Bytes, maxBytes: nat)
    ensures Bounded(BoundedTail(s, maxBytes), maxBytes) <==>
            |s| <= maxBytes || SingleLine(s) || exists k: nat :: |s| - maxBytes <= k < |s| && s[k] == NEWLINE
  {
    if |s| > maxBytes {
      var nl := NextNewline(s, |s| - maxBytes);
      assert nl < |s| ==> |s| - maxBytes <= nl && s[nl] == NEWLINE;
    }
  }

  /** The promise fails on an unterminated buffer of two lines: nothing is trimmed. */
  lemma UnterminatedBufferIsLeftWhole()
    ensures var s: Bytes := [0x61, NEWLINE, 0x62, 0x62, 0x62, 0x62];
            BoundedTail(s, 3) == s && !Bounded(BoundedTail(s, 3), 3)
  {
    var s: Bytes := [0x61, NEWLINE, 0x62, 0x62, 0x62, 0x62];
    assert s[1] == NEWLINE;
  }

  // ---------- The in-place operations ----------

  /** The sink adds the newline a line lacks. */
  function Chunk(line: Bytes): (c: Bytes)
    ensures c != [] && Terminated(c)
  {
    if line != [] && line[|line| - 1] == NEWLINE then line else line + [NEWLINE]
  }

  lemma NewlineIsText()
    ensures Utf8([NEWLINE])
  {
  }

  lemma ChunkIsText(line: Text)
    ensures Utf8(Chunk(line))
  {
    NewlineIsText();
    Utf8Concat(line, [NEWLINE]);
  }

  /** A growable string, as the sinks own and mutate it. */
  class StringBuffer {
    var bytes: Text

    constructor ()
      ensures bytes == []
    {
      bytes := [];
    }

    method PushStr(s: Text)
      modifies this
      ensures bytes == old(bytes) + s
    {
      Utf8Concat(bytes, s);
      bytes := bytes + s;
    }

    /** Push a line and the newline it may lack. */
    method PushLine(line: Text)
      modifies this
      ensures bytes == old(bytes) + Chunk(line)
    {
      PushStr(line);
      if line == [] || line[|line| - 1] != NEWLINE {
        NewlineIsText();
        PushStr([NEWLINE]);
      }
    }

    /** Drop whole leading lines. The bytes are scanned raw, from an offset that may lie inside a
        character. */
    method BoundTail(maxBytes: nat)
      modifies this
      ensures bytes == BoundedTail(old(bytes), maxBytes)
    {
      if |bytes| <= maxBytes {
        return;
      }
      var cut := |bytes| - maxBytes;
      var start := Position(bytes, cut);
      start := if start == |bytes| then 0 else start + 1;
      if start >= |bytes| {
        start := LastPosition(bytes, |bytes| - 1);
      }
      assert start == TailStart(bytes, maxBytes);
      CutsBetweenCharacters(bytes, maxBytes);
      bytes := bytes[start..];
    }
  }

  method Position(s: Bytes, from: nat) returns (r: nat)
    requires from <= |s|
    ensures r == NextNewline(s, from)
  {
    r := from;
    while r < |s| && s[r] != NEWLINE
      invariant r <= |s| && NextNewline(s, r) == NextNewline(s, from)
    {
      r := r + 1;
    }
  }

  method LastPosition(s: Bytes, end: nat) returns (r: nat)
    requires end <= |s|
    ensures r == LineStartBefore(s, end)
  {
    r := end;
    while r > 0 && s[r - 1] != NEWLINE
      invariant r <= end && LineStartBefore(s, r) == LineStartBefore(s, end)
    {
      r := r - 1;
    }
  }

  // ---------- What the sinks keep ----------

  /** Everything ever appended. */
  ghost function Everything(lines: seq<Bytes>): Bytes {
    if lines == [] then [] else Everything(lines[..|lines| - 1]) + Chunk(lines[|lines| - 1])
  }

  /** The durable sink's buffer: bounded after every line. */
  ghost function Durable(lines: seq<Bytes>, maxBytes: nat): Bytes {
    if lines == [] then []
    else BoundedTail(Durable(lines[..|lines| - 1], maxBytes) + Chunk(lines[|lines| - 1]), maxBytes)
  }

  /** The append-and-rotate file: bounded only once it is over twice the cap. */
  function Rotated(file: Bytes, maxBytes: nat): Bytes {
    if |file| > 2 * maxBytes && Utf8(file) then BoundedTail(file, maxBytes) else file
  }

  ghost function Native(lines: seq<Bytes>, maxBytes: nat): Bytes {
    if lines == [] then []
    else Rotated(Native(lines[..|lines| - 1], maxBytes) + Chunk(lines[|lines| - 1]), maxBytes)
  }

  // ---------- The window property ----------

  /** buf is a line-aligned suffix of `all` that contains every line-aligned suffix shorter than
      maxBytes. */
  ghost predicate Recent(buf: Bytes, all: Bytes, maxBytes: nat) {
    var from := |all| - |buf|;
    from >= 0 && buf == all[from..] && LineStart(all, from) && Terminated(buf) && (buf == [] ==> all == []) &&
    forall p: nat :: LineStart(all, p) && |all| - p < maxBytes ==> from <= p
  }

  lemma AppendKeepsRecent(buf: Bytes, all: Bytes, chunk: Bytes, maxBytes: nat)
    requires Recent(buf, all, maxBytes) && chunk != [] && Terminated(chunk)
    ensures Recent(buf + chunk, all + chunk, maxBytes)
  {
    var from := |all| - |buf|;
    assert (all + chunk)[from..] == buf + chunk;
    forall p: nat | LineStart(all + chunk, p) && |all + chunk| - p < maxBytes
      ensures from <= p
    {
      if p < |all| {
        assert LineStart(all, p);
      }
    }
  }

  lemma BoundKeepsRecent(buf: Bytes, all: Bytes, maxBytes: nat)
    requires Recent(buf, all, maxBytes) && maxBytes > 0
    ensures Recent(BoundedTail(buf, maxBytes), all, maxBytes) && Bounded(BoundedTail(buf, maxBytes), maxBytes)
  {
  }

  /** After any appends the durable buffer is a line-aligned suffix of everything appended, contains
      every line-aligned suffix shorter than the cap, and fits the cap or is one single line. */
  lemma {:induction false} DurableIsRecent(lines: seq<Bytes>, maxBytes: nat)
    requires maxBytes > 0
    ensures Recent(Durable(lines, maxBytes), Everything(lines), maxBytes)
    ensures Bounded(Durable(lines, maxBytes), maxBytes)
  {
    if lines != [] {
      var before, chunk := lines[..|lines| - 1], Chunk(lines[|lines| - 1]);
      DurableIsRecent(before, maxBytes);
      AppendKeepsRecent(Durable(before, maxBytes), Everything(before), chunk, maxBytes);
      BoundKeepsRecent(Durable(before, maxBytes) + chunk, Everything(lines), maxBytes);
    }
  }

  lemma {:induction false} NativeIsText(lines: seq<Text>, maxBytes: nat)
    ensures Utf8(Native(lines, maxBytes))
  {
    if lines != [] {
      var before, line := lines[..|lines| - 1], lines[|lines| - 1];
      NativeIsText(before, maxBytes);
      ChunkIsText(line);
      Utf8Concat(Native(before, maxBytes), Chunk(line));
      CutsBetweenCharacters(Native(before, maxBytes) + Chunk(line), maxBytes);
    }
  }

  /** The native file has the same window, within twice the cap: since every line is text, rotation
      can always read the file back. */
  lemma {:induction false} NativeIsRecent(lines: seq<Text>, maxBytes: nat)
    requires maxBytes > 0
    ensures Recent(Native(lines, maxBytes), Everything(lines), maxBytes)
    ensures Bounded(Native(lines, maxBytes), 2 * maxBytes)
  {
    if lines != [] {
      var before, line := lines[..|lines| - 1], lines[|lines| - 1];
      NativeIsRecent(before, maxBytes);
      AppendKeepsRecent(Native(before, maxBytes), Everything(before), Chunk(line), maxBytes);
      BoundKeepsRecent(Native(before, maxBytes) + Chunk(line), Everything(lines), maxBytes);
      NativeIsText(before, maxBytes);
      ChunkIsText(line);
      Utf8Concat(Native(before, maxBytes), Chunk(line));
    }
  }

  // ---------- Both sinks keep the same recent lines ----------

  /** The longest line-aligned tail shorter than maxBytes. */
  function ShortTail(s: Bytes, maxBytes: nat): (t: Bytes)
    requires Terminated(s) && maxBytes > 0
    ensures |t| <= |s| && t == s[|s| - |t|..] && LineStart(s, |s| - |t|) && |t| < maxBytes
    ensures forall p: nat :: LineStart(s, p) && |s| - p < maxBytes ==> |s| - p <= |t|
  {
    if |s| < maxBytes then s
    else
      var nl := NextNewline(s, |s| - maxBytes);
      if nl == |s| then [] else s[nl + 1..]
  }

  /** A window has the same longest short tail as everything it was cut from. */
  lemma RecentHasTheShortTail(buf: Bytes, all: Bytes, maxBytes: nat)
    requires Recent(buf, all, maxBytes) && Terminated(all) && maxBytes > 0
    ensures ShortTail(buf, maxBytes) == ShortTail(all, maxBytes)
  {
    var d, t, u := |all| - |buf|, ShortTail(buf, maxBytes), ShortTail(all, maxBytes);
    assert LineStart(all, d + (|buf| - |t|)) && LineStart(buf, |all| - |u| - d);
    assert |t| == |u|;
  }

  /** Fed the same lines from empty, the native file and the durable buffer end with the same longest
      line-aligned tail shorter than the cap, and it is that of everything appended. */
  lemma SinksAgree(lines: seq<Text>, maxBytes: nat)
    requires maxBytes > 0
    ensures Terminated(Native(lines, maxBytes)) && Terminated(Durable(lines, maxBytes)) && Terminated(Everything(lines))
    ensures ShortTail(Native(lines, maxBytes), maxBytes) == ShortTail(Everything(lines), maxBytes)
    ensures ShortTail(Durable(lines, maxBytes), maxBytes) == ShortTail(Everything(lines), maxBytes)
  {
    NativeIsRecent(lines, maxBytes);
    DurableIsRecent(lines, maxBytes);
    assert lines != [] ==> Everything(lines)[|Everything(lines)| - 1] == NEWLINE;
    RecentHasTheShortTail(Native(lines, maxBytes), Everything(lines), maxBytes);
    RecentHasTheShortTail(Durable(lines, maxBytes), Everything(lines), maxBytes);
  }

  // ---------- Appending the same line again ----------

  lemma {:induction false} NextNewlineBehind(t: Bytes, c: Bytes, from: nat)
    requires from <= |c|
    ensures NextNewline(t + c, |t| + from) == |t| + NextNewline(c, from)
    decreases |c| - from
  {
    if from < |c| && c[from] != NEWLINE {
      NextNewlineBehind(t, c, from + 1);
    }
  }

  lemma {:induction false} LineStartBehind(t: Bytes, c: Bytes, end: nat)
    requires Terminated(t) && end <= |c|
    ensures LineStartBefore(t + c, |t| + end) == |t| + LineStartBefore(c, end)
    decreases end
  {
    if end > 0 && c[end - 1] != NEWLINE {
      LineStartBehind(t, c, end - 1);
    }
  }

  /** Whole lines in front of text over the cap make no difference to what is kept. */
  lemma TailOfLongText(t: Bytes, c: Bytes, maxBytes: nat)
    requires Terminated(t) && c != [] && Terminated(c) && |c| > maxBytes > 0
    ensures BoundedTail(t + c, maxBytes) == BoundedTail(c, maxBytes)
  {
    TailStartBehind(t, c, maxBytes);
    Seqs.CutAfter(t, c, TailStart(c, maxBytes));
  }

  lemma TailStartBehind(t: Bytes, c: Bytes, maxBytes: nat)
    requires Terminated(t) && c != [] && Terminated(c) && |c| > maxBytes > 0
    ensures TailStart(t + c, maxBytes) == |t| + TailStart(c, maxBytes)
  {
    NextNewlineBehind(t, c, |c| - maxBytes);
    LineStartBehind(t, c, |c| - 1);
    assert NextNewline(c, |c| - maxBytes) < |c|;
  }

  lemma KeptWholeExactlyWhen(c: Bytes, maxBytes: nat)
    requires c != [] && Terminated(c) && |c| > maxBytes > 0
    ensures BoundedTail(c, maxBytes) == c <==> SingleLine(c)
  {
    TailIsExactly(c, maxBytes, 0);
    assert c[0..] == c;
  }

  lemma RotatedTextIsText(c: Text, maxBytes: nat)
    ensures Utf8(Rotated(c, maxBytes))
  {
    CutsBetweenCharacters(c, maxBytes);
  }

  /** Appending the same text again, with rotation, changes nothing exactly when the text alone is
      already rotated, or is one line over the cap. */
  lemma AgainChangesNothingExactlyWhen(c: Text, maxBytes: nat)
    requires c != [] && Terminated(c) && maxBytes > 0
    ensures var once := Rotated(c, maxBytes);
            Rotated(once + c, maxBytes) == once <==> |c| > 2 * maxBytes || (|c| > maxBytes && SingleLine(c))
  {
    var once := Rotated(c, maxBytes);
    RotatedTextIsText(c, maxBytes);
    Utf8Concat(once, c);
    if |c| > maxBytes {
      TailIsAligned(c, maxBytes);
      TailOfLongText(once, c, maxBytes);
      KeptWholeExactlyWhen(c, maxBytes);
    }
  }
}
