/** What the sinks' bytes say when they are read back as lines: each line whole, in order, and the newest
    always there. */
module LogLines {
  import opened ByteStrings
  import opened ByteLines
  import opened LogWindow
  import opened LogSinks
  import Seqs

  // ---------- What one append adds ----------

  /** A line is added with its one newline, whether it brought it or not. */
  lemma ChunkIsTheLine(line: Bytes)
    requires OneLine(line)
    ensures Chunk(line) == line + [0x0A] && Chunk(line + [0x0A]) == line + [0x0A]
  {
  }

  lemma ChunkReadsBack(line: Bytes)
    requires OneLine(line)
    ensures LinesIn(Chunk(line)) == [line]
  {
    ChunkIsTheLine(line);
    LinesInFirst(line, []);
    Seqs.EmptyUnit([0x0A]);
    Seqs.EmptyUnit([line]);
  }

  ghost predicate AllOneLine(lines: seq<Bytes>) {
    forall i :: 0 <= i < |lines| ==> OneLine(lines[i])
  }

  lemma EverythingIsTerminated(lines: seq<Bytes>)
    ensures EndsLine(Everything(lines))
  {
  }

  /** Everything appended reads back as exactly the lines. */
  lemma {:induction false} EverythingReadsBack(lines: seq<Bytes>)
    requires AllOneLine(lines)
    ensures LinesIn(Everything(lines)) == lines
  {
    if lines != [] {
      var before, last := lines[..|lines| - 1], lines[|lines| - 1];
      EverythingReadsBack(before);
      EverythingIsTerminated(before);
      LinesInConcat(Everything(before), Chunk(last));
      ChunkReadsBack(last);
      Seqs.SplitLast(lines);
    }
  }

  // ---------- What the window keeps ----------

  /** The newest lines, each whole; at least the last one, if there is any. */
  ghost predicate NewestOf(kept: seq<Bytes>, lines: seq<Bytes>) {
    |kept| <= |lines| && kept == lines[|lines| - |kept|..] && (lines != [] ==> kept != [])
  }

  lemma SuffixReadsBack(front: Bytes, buf: Bytes, lines: seq<Bytes>)
    requires EndsLine(front)
    requires LinesIn(front + buf) == lines && (lines != [] ==> buf != [])
    ensures NewestOf(LinesIn(buf), lines)
  {
    LinesInConcat(front, buf);
    Seqs.SplitsBack(LinesIn(front), LinesIn(buf));
  }

  lemma RecentIsSuffix(buf: Bytes, all: Bytes, maxBytes: nat) returns (front: Bytes)
    requires Recent(buf, all, maxBytes)
    ensures all == front + buf && EndsLine(front) && (all != [] ==> buf != [])
  {
    front := all[..|all| - |buf|];
    Seqs.SplitAt(all, |all| - |buf|);
  }

  lemma RecentReadsBack(buf: Bytes, lines: seq<Bytes>, maxBytes: nat)
    requires AllOneLine(lines) && Recent(buf, Everything(lines), maxBytes)
    ensures NewestOf(LinesIn(buf), lines)
  {
    var front := RecentIsSuffix(buf, Everything(lines), maxBytes);
    EverythingReadsBack(lines);
    SuffixReadsBack(front, buf, lines);
  }

  /** The durable buffer and the native file both read back as the newest lines. */
  lemma SinksReadBack(lines: seq<Text>, maxBytes: nat)
    requires AllOneLine(lines) && maxBytes > 0
    ensures NewestOf(LinesIn(Durable(lines, maxBytes)), lines)
    ensures NewestOf(LinesIn(Native(lines, maxBytes)), lines)
  {
    DurableIsRecent(lines, maxBytes);
    NativeIsRecent(lines, maxBytes);
    RecentReadsBack(Durable(lines, maxBytes), lines, maxBytes);
    RecentReadsBack(Native(lines, maxBytes), lines, maxBytes);
  }

  // ---------- What the log files hold ----------

  lemma FilenamesAreFixed()
    ensures Shell.Filename() == "shell.log" && Http.Filename() == "http.log"
    ensures Rpc.Filename() == "mcp.log" && Ops.Filename() == "ops.log"
  {
  }

  lemma FirstChunkIsKept(chunk: Bytes)
    ensures |chunk| <= 262144 ==> BoundedTail([] + chunk, MAX_LOG_BYTES) == chunk
    ensures |chunk| <= 524288 ==> Rotated([] + chunk, MAX_LOG_BYTES) == chunk
  {
    Seqs.EmptyUnit(chunk);
    if |chunk| <= 262144 {
      FittingBufferIsLeftAlone(chunk, MAX_LOG_BYTES);
    }
  }

  /** The first line of a log is in its file, byte for byte, as long as the file has room for it. */
  lemma FirstLineIsWritten(disk: Files, file: LogFile, line: Text)
    requires OneLine(line)
    ensures |line| < 262144 ==>
              ExecuteDurable(map[], disk, Entry(file, line)).1 == disk[file.Filename() := line + [0x0A]]
    ensures |line| < 524288 ==>
              ExecuteNative(map[], Entry(file, line)) == map[file.Filename() := line + [0x0A]]
  {
    ChunkIsTheLine(line);
    FirstChunkIsKept(line + [0x0A]);
  }

  /** The lines of the calls made to one file, in order. */
  function Logged(entries: seq<Entry>, file: LogFile): seq<Text> {
    if entries == [] then []
    else (if entries[0].file == file then [entries[0].line] else []) + Logged(entries[1..], file)
  }

  lemma {:induction false} LoggedLast(entries: seq<Entry>, e: Entry, file: LogFile)
    ensures Logged(entries + [e], file) == Logged(entries, file) + if e.file == file then [e.line] else []
  {
    if entries == [] {
      Seqs.EmptyUnit([e]);
      assert [e][1..] == [];
    } else {
      var first := if entries[0].file == file then [entries[0].line] else [];
      var last := if e.file == file then [e.line] else [];
      Seqs.FirstOfConcat(entries, [e]);
      LoggedLast(entries[1..], e, file);
      Seqs.Reassociate(first, Logged(entries[1..], file), last);
    }
  }

  lemma {:induction false} LinesOfIsLogged(entries: seq<Entry>, file: LogFile)
    ensures LinesOf(entries, file) == Logged(entries, file)
  {
    if entries != [] {
      var before, e := entries[..|entries| - 1], entries[|entries| - 1];
      LinesOfIsLogged(before, file);
      LoggedLast(before, e, file);
      Seqs.SplitLast(entries);
      Seqs.EmptyUnit(Logged(before, file));
    }
  }

  /** In every run, with any crashes leaving any disk behind, each log file reads back as the newest of
      the lines logged to it by the calls executed since the last crash. */
  lemma LogFileReadsBack(disk: Files, events: seq<Event>, file: LogFile, lines: seq<Text>)
    requires var a := Run(disk, events); a.done <= |a.oplog| && lines == Logged(a.oplog[..a.done], file)
    requires AllOneLine(lines) && lines != []
    ensures NewestOf(LinesIn(Read(Run(disk, events).disk, file.Filename())), lines)
  {
    var a := Run(disk, events);
    ReplayNeverSeesTheDisk(disk, events, file);
    LinesOfIsLogged(a.oplog[..a.done], file);
    RecentReadsBack(Read(a.disk, file.Filename()), lines, MAX_LOG_BYTES);
  }

  /** And so does the native one, from an empty directory. */
  lemma NativeFileReadsBack(entries: seq<Entry>, file: LogFile)
    requires AllOneLine(Logged(entries, file))
    ensures NewestOf(LinesIn(Read(NativeDisk(entries), file.Filename())), Logged(entries, file))
  {
    NativeFileHolds(entries, file);
    LinesOfIsLogged(entries, file);
    SinksReadBack(Logged(entries, file), MAX_LOG_BYTES);
  }
}
