/** The two log sinks over a log directory, and the replay protocol the durable one is built for. */
module LogSinks {
  import opened ByteStrings
  import opened LogWindow
  import Seqs

  const MAX_LOG_BYTES: nat := 256 * 1024

  datatype LogFile = Shell | Http | Rpc | Ops {
    function Filename(): string {
      match this
      case Shell => "shell.log"
      case Http => "http.log"
      case Rpc => "mcp.log"
      case Ops => "ops.log"
    }
  }

  lemma FilenamesAreDistinct(a: LogFile, b: LogFile)
    ensures a.Filename() == b.Filename() <==> a == b
  {
  }

  type Files = map<string, Bytes>

  function Read(files: Files, name: string): Bytes {
    if name in files then files[name] else []
  }

  datatype Entry = Entry(file: LogFile, line: Text)

  // ---------- One append, as a function of memory and disk ----------

  function BufferAfter(buf: Bytes, line: Bytes): Bytes {
    BoundedTail(buf + Chunk(line), MAX_LOG_BYTES)
  }

  function FileAfter(file: Bytes, line: Bytes): Bytes {
    Rotated(file + Chunk(line), MAX_LOG_BYTES)
  }

  /** Only the buffer and the file of that name change, and the file becomes the buffer. */
  function ExecuteDurable(memory: Files, disk: Files, e: Entry): (Files, Files) {
    var name := e.file.Filename();
    var buf := BufferAfter(Read(memory, name), e.line);
    (memory[name := buf], disk[name := buf])
  }

  function ExecuteNative(disk: Files, e: Entry): Files {
    var name := e.file.Filename();
    disk[name := FileAfter(Read(disk, name), e.line)]
  }

  lemma UpdatedMap<K, V>(m: map<K, V>, m': map<K, V>, k: K, v: V)
    requires m'.Keys == m.Keys + {k} && m'[k] == v
    requires forall f :: f in m && f != k ==> m'[f] == m[f]
    ensures m' == m[k := v]
  {
  }

  lemma UpdatedTwice<K, V>(m: map<K, V>, k: K, v: V, w: V)
    ensures m[k := v][k := w] == m[k := w]
  {
  }

  // ---------- The sinks ----------

  /** The log directory: outlives the sinks, and its contents are never read by the durable one. */
  class LogDirectory {
    var files: Files

    constructor (files: Files)
      ensures this.files == files
    {
      this.files := files;
    }

    method Write(name: string, contents: Bytes)
      modifies this
      ensures files == old(files)[name := contents]
    {
      files := files[name := contents];
    }
  }

  /** The replay-safe sink: buffers in memory, rewrites the whole file on every append. */
  class DurableLogSink {
    var buffers: map<string, StringBuffer>

    ghost predicate Valid()
      reads this
    {
      forall f, g :: f in buffers && g in buffers && f != g ==> buffers[f] != buffers[g]
    }

    ghost function Contents(): Files
      reads this, buffers.Values
    {
      map f | f in buffers :: buffers[f].bytes
    }

    constructor ()
      ensures Valid() && buffers == map[] && Contents() == map[]
    {
      buffers := map[];
    }

    /** The buffer of a file, created empty on first use. */
    method BufferFor(filename: string) returns (buf: StringBuffer)
      requires Valid()
      modifies this
      ensures Valid() && buffers.Keys == old(buffers.Keys) + {filename} && buf == buffers[filename]
      ensures forall f :: f in old(buffers) ==> buffers[f] == old(buffers[f])
      ensures fresh({buf} - old(buffers.Values)) && buffers.Values <= old(buffers.Values) + {buf}
      ensures buf.bytes == Read(old(Contents()), filename)
    {
      if filename !in buffers {
        var empty := new StringBuffer();
        buffers := buffers[filename := empty];
      }
      buf := buffers[filename];
    }

    method Append(dir: LogDirectory, file: LogFile, line: Text)
      requires Valid()
      modifies this, buffers.Values, dir
      ensures Valid() && fresh(buffers.Values - old(buffers.Values))
      ensures (Contents(), dir.files) == ExecuteDurable(old(Contents()), old(dir.files), Entry(file, line))
    {
      var buf := Accumulate(file.Filename(), line);
      assert buf.bytes == Contents()[file.Filename()];
      dir.Write(file.Filename(), buf.bytes);
    }

    /** Push a line to one buffer and bound it; the others are untouched. */
    method Accumulate(filename: string, line: Text) returns (buf: StringBuffer)
      requires Valid()
      modifies this, buffers.Values
      ensures Valid() && fresh(buffers.Values - old(buffers.Values))
      ensures filename in buffers && buf == buffers[filename]
      ensures Contents() == old(Contents())[filename := BufferAfter(Read(old(Contents()), filename), line)]
    {
      ghost var before := Contents();
      buf := BufferFor(filename);
      buf.PushLine(line);
      buf.BoundTail(MAX_LOG_BYTES);
      forall f | f in before && f != filename
        ensures Contents()[f] == before[f]
      {
        assert buffers[f] != buf;
      }
      UpdatedMap(before, Contents(), filename, buf.bytes);
    }
  }

  /** The native sink: append to the file, then rotate it if it is over twice the cap. */
  class DefaultLogSink {
    constructor ()
    {
    }

    method WriteLine(dir: LogDirectory, file: LogFile, line: Text)
      modifies dir
      ensures dir.files == ExecuteNative(old(dir.files), Entry(file, line))
    {
      var filename := file.Filename();
      var before := Read(dir.files, filename);
      dir.Write(filename, before + line);
      if line == [] || line[|line| - 1] != NEWLINE {
        dir.Write(filename, dir.files[filename] + [NEWLINE]);
        UpdatedTwice(old(dir.files), filename, before + line, before + line + [NEWLINE]);
        Seqs.Reassociate(before, line, [NEWLINE]);
      }
      assert dir.files == old(dir.files)[filename := before + Chunk(line)];
      RotateIfOversized(dir, filename);
      UpdatedTwice(old(dir.files), filename, before + Chunk(line), FileAfter(before, line));
    }

    method RotateIfOversized(dir: LogDirectory, filename: string)
      requires filename in dir.files
      modifies dir
      ensures dir.files == old(dir.files)[filename := Rotated(old(dir.files)[filename], MAX_LOG_BYTES)]
    {
      var file := dir.files[filename];
      assert dir.files[filename := file] == dir.files;
      if |file| <= 2 * MAX_LOG_BYTES {
        return;
      }
      if Utf8(file) {
        var contents := new StringBuffer();
        contents.PushStr(file);
        assert contents.bytes == file;
        contents.BoundTail(MAX_LOG_BYTES);
        dir.Write(filename, contents.bytes);
      }
    }
  }

  // ---------- The replay protocol ----------

  /** The recorded calls, how many of them this instance has executed, its memory and its disk. */
  datatype Agent = Agent(oplog: seq<Entry>, done: nat, memory: Files, disk: Files)

  datatype Event =
    | Append(entry: Entry)       // a new call, once replay has caught up
    | Crash(leftOver: Files)     // memory is lost; the disk may hold anything
    | Replay                     // re-execute the next recorded call

  ghost function Step(a: Agent, event: Event): Agent {
    match event
    case Append(e) =>
      if a.done != |a.oplog| then a
      else
        var (memory, disk) := ExecuteDurable(a.memory, a.disk, e);
        Agent(a.oplog + [e], a.done + 1, memory, disk)
    case Crash(leftOver) => a.(done := 0, memory := map[], disk := leftOver)
    case Replay =>
      if a.done >= |a.oplog| then a
      else
        var (memory, disk) := ExecuteDurable(a.memory, a.disk, a.oplog[a.done]);
        a.(done := a.done + 1, memory := memory, disk := disk)
  }

  /** A run from a fresh agent over a disk with any contents. */
  ghost function Run(disk: Files, events: seq<Event>): Agent {
    if events == [] then Agent([], 0, map[], disk)
    else Step(Run(disk, events[..|events| - 1]), events[|events| - 1])
  }

  /** The lines appended to one file, in order. */
  ghost function LinesOf(entries: seq<Entry>, file: LogFile): seq<Text> {
    if entries == [] then []
    else
      var before, last := LinesOf(entries[..|entries| - 1], file), entries[|entries| - 1];
      if last.file == file then before + [last.line] else before
  }

  /** The recorded calls, made one after the other with no crash. */
  ghost function CrashFree(oplog: seq<Entry>): seq<Event> {
    if oplog == [] then [] else CrashFree(oplog[..|oplog| - 1]) + [Append(oplog[|oplog| - 1])]
  }

  lemma LinesOfExtension(entries: seq<Entry>, e: Entry, file: LogFile)
    ensures LinesOf(entries + [e], file) ==
            if e.file == file then LinesOf(entries, file) + [e.line] else LinesOf(entries, file)
  {
  }

  /** Under one name, memory and disk hold the window of these lines. */
  ghost predicate Holds(memory: Files, disk: Files, name: string, lines: seq<Bytes>) {
    Read(memory, name) == Durable(lines, MAX_LOG_BYTES) &&
    (lines != [] ==> name in disk && disk[name] == Durable(lines, MAX_LOG_BYTES))
  }

  lemma AppendHolds(memory: Files, disk: Files, name: string, lines: seq<Bytes>, line: Bytes)
    requires Holds(memory, disk, name, lines)
    ensures var buf := BufferAfter(Read(memory, name), line);
            Holds(memory[name := buf], disk[name := buf], name, lines + [line])
  {
  }

  lemma OtherFilesHold(memory: Files, disk: Files, name: string, other: string, buf: Bytes, lines: seq<Bytes>)
    requires Holds(memory, disk, name, lines) && other != name
    ensures Holds(memory[other := buf], disk[other := buf], name, lines)
  {
  }

  /** For one file, memory and disk are what the executed calls determine. */
  ghost predicate FileInStep(executed: seq<Entry>, memory: Files, disk: Files, file: LogFile) {
    Holds(memory, disk, file.Filename(), LinesOf(executed, file))
  }

  ghost predicate Synced(executed: seq<Entry>, memory: Files, disk: Files) {
    forall file: LogFile :: FileInStep(executed, memory, disk, file)
  }

  ghost predicate InStep(a: Agent) {
    a.done <= |a.oplog| && Synced(a.oplog[..a.done], a.memory, a.disk)
  }

  lemma ExecutionKeepsFileInStep(executed: seq<Entry>, memory: Files, disk: Files, e: Entry, file: LogFile)
    requires FileInStep(executed, memory, disk, file)
    ensures var (memory', disk') := ExecuteDurable(memory, disk, e);
            FileInStep(executed + [e], memory', disk', file)
  {
    LinesOfExtension(executed, e, file);
    FilenamesAreDistinct(e.file, file);
    var lines, name := LinesOf(executed, file), e.file.Filename();
    if e.file == file {
      AppendHolds(memory, disk, name, lines, e.line);
    } else {
      OtherFilesHold(memory, disk, file.Filename(), name, BufferAfter(Read(memory, name), e.line), lines);
    }
  }

  lemma ExecutionKeepsSynced(executed: seq<Entry>, memory: Files, disk: Files, e: Entry)
    requires Synced(executed, memory, disk)
    ensures Synced(executed + [e], ExecuteDurable(memory, disk, e).0, ExecuteDurable(memory, disk, e).1)
  {
    forall file: LogFile
      ensures FileInStep(executed + [e], ExecuteDurable(memory, disk, e).0, ExecuteDurable(memory, disk, e).1, file)
    {
      ExecutionKeepsFileInStep(executed, memory, disk, e, file);
    }
  }

  lemma AppendKeepsInStep(a: Agent, e: Entry)
    requires InStep(a)
    ensures InStep(Step(a, Append(e)))
  {
    if a.done == |a.oplog| {
      Seqs.TakeAll(a.oplog);
      Seqs.TakeAll(a.oplog + [e]);
      ExecutionKeepsSynced(a.oplog, a.memory, a.disk, e);
    }
  }

  lemma CrashKeepsInStep(a: Agent, leftOver: Files)
    ensures InStep(Step(a, Crash(leftOver)))
  {
    assert a.oplog[..0] == [];
  }

  lemma ReplayKeepsInStep(a: Agent, executed: seq<Entry>, e: Entry)
    requires InStep(a) && a.done < |a.oplog|
    requires executed == a.oplog[..a.done] && e == a.oplog[a.done] && executed + [e] == a.oplog[..a.done + 1]
    ensures InStep(Step(a, Replay))
  {
    ExecutionKeepsSynced(executed, a.memory, a.disk, e);
  }

  lemma StepKeepsInStep(a: Agent, event: Event)
    requires InStep(a)
    ensures InStep(Step(a, event))
  {
    match event
    case Append(e) => AppendKeepsInStep(a, e);
    case Crash(leftOver) => CrashKeepsInStep(a, leftOver);
    case Replay =>
      if a.done < |a.oplog| {
        Seqs.TakeOneMore(a.oplog, a.done);
        ReplayKeepsInStep(a, a.oplog[..a.done], a.oplog[a.done]);
      }
  }

  lemma {:induction false} RunIsInStep(disk: Files, events: seq<Event>)
    ensures InStep(Run(disk, events))
  {
    if events == [] {
      assert Run(disk, events).oplog[..0] == [];
    } else {
      RunIsInStep(disk, events[..|events| - 1]);
      StepKeepsInStep(Run(disk, events[..|events| - 1]), events[|events| - 1]);
    }
  }

  lemma RunExtension(disk: Files, events: seq<Event>, event: Event)
    ensures Run(disk, events + [event]) == Step(Run(disk, events), event)
  {
  }

  lemma AppendIsRecorded(a: Agent, e: Entry)
    requires a.done == |a.oplog|
    ensures Step(a, Append(e)).oplog == a.oplog + [e] && Step(a, Append(e)).done == |a.oplog| + 1
  {
  }

  lemma {:induction false} CrashFreeRun(disk: Files, oplog: seq<Entry>)
    ensures var a := Run(disk, CrashFree(oplog)); a.oplog == oplog && a.done == |oplog|
  {
    if oplog != [] {
      var before, e := oplog[..|oplog| - 1], oplog[|oplog| - 1];
      CrashFreeRun(disk, before);
      var a := Run(disk, CrashFree(before));
      AppendIsRecorded(a, e);
      RunExtension(disk, CrashFree(before), Append(e));
      Seqs.SplitLast(oplog);
    }
  }

  /** Replay converges: over every run with any number of crashes, at any points and leaving any disk
      behind, once replay has caught up every touched file equals that of the crash-free run of the
      same calls, and depends on the lines appended to that file alone. */
  lemma ReplayConverges(disk: Files, cleanDisk: Files, events: seq<Event>, file: LogFile)
    ensures var a := Run(disk, events);
            var clean := Run(cleanDisk, CrashFree(a.oplog));
            var lines, name := LinesOf(a.oplog, file), file.Filename();
            a.done == |a.oplog| && lines != [] ==>
              name in a.disk && name in clean.disk && a.disk[name] == clean.disk[name] == Durable(lines, MAX_LOG_BYTES)
  {
    var a := Run(disk, events);
    RunIsInStep(disk, events);
    RunIsInStep(cleanDisk, CrashFree(a.oplog));
    CrashFreeRun(cleanDisk, a.oplog);
    assert a.oplog[..|a.oplog|] == a.oplog;
    if a.done == |a.oplog| {
      assert FileInStep(a.oplog[..a.done], a.memory, a.disk, file);
    }
    var clean := Run(cleanDisk, CrashFree(a.oplog));
    assert FileInStep(clean.oplog[..clean.done], clean.memory, clean.disk, file);
  }

  /** Even in the middle of a replay, a file the replay has already touched is exactly what the
      calls replayed so far produce: nothing that was on disk before the crash survives in it. */
  lemma ReplayNeverSeesTheDisk(disk: Files, events: seq<Event>, file: LogFile)
    ensures var a := Run(disk, events);
            a.done <= |a.oplog| &&
            var lines := LinesOf(a.oplog[..a.done], file);
            (lines != [] ==> Recent(Read(a.disk, file.Filename()), Everything(lines), MAX_LOG_BYTES) &&
                             Bounded(Read(a.disk, file.Filename()), MAX_LOG_BYTES))
  {
    var a := Run(disk, events);
    RunIsInStep(disk, events);
    assert FileInStep(a.oplog[..a.done], a.memory, a.disk, file);
    DurableIsRecent(LinesOf(a.oplog[..a.done], file), MAX_LOG_BYTES);
  }

  // ---------- Both sinks, file by file ----------

  /** The native log directory after these calls, from an empty one. */
  ghost function NativeDisk(entries: seq<Entry>): Files {
    if entries == [] then map[] else ExecuteNative(NativeDisk(entries[..|entries| - 1]), entries[|entries| - 1])
  }

  lemma {:induction false} NativeFileHolds(entries: seq<Entry>, file: LogFile)
    ensures Read(NativeDisk(entries), file.Filename()) == Native(LinesOf(entries, file), MAX_LOG_BYTES)
  {
    if entries != [] {
      var before, e := entries[..|entries| - 1], entries[|entries| - 1];
      NativeFileHolds(before, file);
      FilenamesAreDistinct(e.file, file);
      var lines := LinesOf(before, file);
      assert (lines + [e.line])[..|lines|] == lines;
    }
  }

  /** The same calls, made natively from an empty directory and made durably with any crashes over any
      disk: every file ends with the same longest line-aligned tail shorter than the cap. */
  lemma DirectoriesAgree(disk: Files, events: seq<Event>, file: LogFile)
    ensures var a := Run(disk, events);
            var native, durable := Read(NativeDisk(a.oplog), file.Filename()), Read(a.disk, file.Filename());
            a.done == |a.oplog| && LinesOf(a.oplog, file) != [] ==>
              Terminated(native) && Terminated(durable) &&
              ShortTail(native, MAX_LOG_BYTES) == ShortTail(durable, MAX_LOG_BYTES)
  {
    var a := Run(disk, events);
    ReplayConverges(disk, disk, events, file);
    NativeFileHolds(a.oplog, file);
    SinksAgree(LinesOf(a.oplog, file), MAX_LOG_BYTES);
  }

  /** Why the append sink may not be replayed: one line, then its replay over the file that the crash
      left behind. The file stays as it was exactly when the line is a single one over the cap, or over
      twice the cap whatever it holds; a line within the cap is there twice. */
  lemma AppendSinkDuplicates(line: Text)
    ensures var c, once := Chunk(line), FileAfter([], line);
            (FileAfter(once, line) == once <==>
             |c| > 2 * MAX_LOG_BYTES || (|c| > MAX_LOG_BYTES && SingleLine(c))) &&
            (|c| <= MAX_LOG_BYTES ==> once == c && FileAfter(once, line) == once + once)
  {
    ChunkIsText(line);
    AgainChangesNothingExactlyWhen(Chunk(line), MAX_LOG_BYTES);
    Seqs.EmptyUnit(Chunk(line));
  }
}
