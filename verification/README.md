# clank: a verified model of its core logic

clank is a shell for durable agents. This project models the four parts of it whose correctness is
hardest to see from the code, and proves what they promise:

1. **The Merkle inclusion verifier** of the grease package manager. `VerifyInclusionProof` is the
   bottom-up walk over `(fnode, snode)`; the tree, its audit paths and the recomputed root are defined
   top-down, as sections 2.1 and 2.1.1 of RFC 6962 define them. The walk is proved to give, on every
   input, the verdict of the top-down definition. Completeness, binding, membership, root commitment
   and exact proof lengths follow. The hash is an arbitrary function to 32 bytes. A claim "up to a
   collision" names the finite sets of strings, hashed for the tree and for the proof, between which the
   collision is found, so it is not met by the mere existence of collisions.
2. **The rolling log** and its replay-safe sink: `bound_tail` on the bytes of UTF-8 text, the durable
   sink (buffer, bound, rewrite the whole file) and the native one (append, rotate). The replay protocol is
   a transition system with append, crash and replay steps, and the theorems are about all its runs.
3. **The transcript**: a window of commands with an elision marker, a summary slot and a bounded side
   buffer, followed over every sequence of operations against an independent account of what was
   recorded and what was dropped.
4. **The small languages**: prompt Markdown with its frontmatter, `{{name}}` templates, `.clank`
   scenarios and log records. The repository has one direction of each; the other is a specification
   here, and the round trips are proved.

| files | what they hold |
|---|---|
| `Merkle.dfy`, `MerkleProofs.dfy` | the verifier, the top-down tree, and the security statements |
| `ByteStrings.dfy`, `Utf8Text.dfy` | bytes that are UTF-8, and decoding them to text, strictly or lossily |
| `LogWindow.dfy`, `LogSinks.dfy` | `bound_tail` and the window, the sinks and the replay protocol |
| `ByteLines.dfy`, `LogLines.dfy` | bytes split at 0x0A, and what the log files then read as |
| `Transcripts.dfy`, `TranscriptRuns.dfy` | the transcript's operations, and what holds over every run |
| `TranscriptText.dfy` | what the rendered text says when it is read |
| `Templates.dfy`, `TemplateOrder.dfy`, `Packages.dfy` | filling a prompt body, and exactly when the order of the arguments shows |
| `TemplateValues.dfy` | which value fills a placeholder |
| `Prompts.dfy`, `PromptRules.dfy`, `PromptRoundTrip.dfy` | the prompt parser, what it accepts, the printer and the round trip |
| `PromptReadings.dfy` | every way a header line and a file may be written |
| `Scenarios.dfy`, `ScenarioInvariants.dfy`, `ScenarioRules.dfy` | the scenario parser, its guarantees, and why nothing stated is overwritten |
| `ScenarioAcceptance.dfy`, `ScenarioRoundTrip.dfy` | which scenario texts are accepted, the printer and the round trip |
| `ScenarioComments.dfy`, `ScenarioReadings.dfy` | comments and blank lines, and what single lines do |
| `Records.dfy` | log records and their decoder |
| `Folds.dfy`, `Repetition.dfy` | reading a list item by item, repeating a step, and induction over both |
| `Texts.dfy`, `Seqs.dfy`, `Decimals.dfy`, `Results.dfy` | text operations, sequence facts, decimal numbers, optional values and errors |

Loops of the source are `while` and `for` loops here, in methods proved equal to a specification
function; objects that the source updates in place are classes whose methods state their whole new
state. The theorems are then about the specification functions.

What hashed strings, log files, rendered text, filled bodies and single lines of the small languages hold is
also stated in literal bytes and characters, apart from the functions that build them: at the end of
`MerkleProofs.dfy` and `Records.dfy`, in `LogLines.dfy`, `TranscriptText.dfy`, `TemplateValues.dfy`,
`PromptReadings.dfy`, `ScenarioComments.dfy` and `ScenarioReadings.dfy`.

## Where the code and its documentation disagree

The model follows the code.

- `bound_tail` is documented as trimming "to at most `max_bytes`" unless a single line is longer. An
  unterminated buffer whose last newline lies before the cut is left whole however many lines it has
  (`UnterminatedBufferIsLeftWhole`); `PromiseKeptExactlyWhen` gives the exact condition, for all inputs.
  The tail kept is otherwise strictly shorter than `max_bytes` even where a tail of exactly `max_bytes` was
  aligned, except when that tail is the last line (`TailIsExactly`). Both sinks terminate the buffer
  first, and over their runs the bound holds (`DurableIsRecent`, `NativeIsRecent`).
- `Record::render` is documented to round-trip faithfully. Control characters other than newline,
  carriage return and tab become spaces (`BellIsLost`); `FaithfulExactlyWhen` gives the exact condition,
  and by `SameLineExactlyWhen` no other decoder could do better.
- `pending_summary` is documented as the dropped span with its count, and a fresh eviction as having the
  "(now larger) dropped span" summarized again. After a summary or a discard the next drop offers the
  newly dropped text alone, under the count of everything dropped since the last clear
  (`DropAfterSummary`); after a clear it offers the text left from before the clear as well, under a
  count of one (`DropAfterClear`). `PendingTextExactly` gives the returned text for every run, and the
  exact condition for it to be that of the counted commands; `BufferExactly` says the same of the buffer.
- `fill_body` replaces one argument after the other, so a placeholder inside a value is filled again or
  not depending on declaration order (`OrderShowsThroughValues`). `OrderIrrelevantExactlyWhen` gives the
  exact condition for the order to be irrelevant in every body, and `SimultaneousExactlyWhen` the one for
  every step of the loop to be a simultaneous substitution: no value takes part in the placeholder of
  another argument, or of a later one, unless that argument's value is its own placeholder. Values without
  an opening brace always qualify (`NoBraceIsFree`).
- The verifier's comments place its walk in section 2.1.1 of RFC 6962. That section defines the audit
  path recursively; the iterative walk is the algorithm of section 2.1.3.2 of RFC 9162.

## Model

| member | source | states |
|---|---|---|
| Merkle.VerifyInclusionProof | crates/grease-pkg/src/lib.rs:812-868 | the bottom-up walk with its inner ascend loop returns, for every u64 index and size, root and proof, the verdict of the top-down definition; neither counter underflows and both loops end |
| Merkle.WalkIsJudge | crates/grease-pkg/src/lib.rs:836-867 | from any position in any tree, the rest of the walk answers what recomputing the root top-down answers, error cases in the same order |
| Merkle.JudgeAfterAscent | crates/grease-pkg/src/lib.rs:843-850 | skipping the levels on which a last node has no sibling changes neither the verdict nor the position's validity, and ends on a right child |
| Merkle.JudgeAfterMerge | crates/grease-pkg/src/lib.rs:843-856 | hashing a node with its sibling, on the side its index says, and moving one level up with the rest of the proof keeps the verdict |
| Merkle.MergeLowestLevel | crates/grease-pkg/src/lib.rs:843-856 | consuming the first proof node bottom-up agrees with peeling the last one top-down: the claimed root is unchanged |
| Merkle.LowestLevelLength | crates/grease-pkg/src/lib.rs:836-857 | the audit path of a node is one longer than its parent's exactly when it has a sibling |
| Merkle.SplitIsTheLargestPow2Below | crates/grease-pkg/src/lib.rs:1091-1097 | the split point is the largest power of two below n, and nothing else is |
| MerkleProofs.PathRecomputesRoot | crates/grease-pkg/src/lib.rs:1065-1089 | the recursive audit path has the length computed from index and size alone, 32-byte nodes, and recomputes the tree's root |
| MerkleProofs.Completeness | crates/grease-pkg/src/lib.rs:1100-1116 | for every hash, nonempty leaf list and index, the verifier accepts the leaf with its audit path |
| MerkleProofs.AcceptedMeans | crates/grease-pkg/src/lib.rs:807-811 | acceptance holds exactly when index, root length, proof length, node lengths and recomputed root are all right |
| MerkleProofs.Binding | crates/grease-pkg/src/lib.rs:812-867 | acceptance against the root of D at size \|D\| means leaf = D[i] and the proof equals the audit path node for node, or a collision between the hashed strings |
| MerkleProofs.AcceptedIffMember | crates/grease-pkg/src/lib.rs:1119-1139 | with no collision among the hashed strings, acceptance at an index holds if and only if leaf and proof are those of the tree |
| MerkleProofs.Membership | crates/grease-pkg/src/lib.rs:783-868 | under any claimed index and tree size, also wrong ones, an accepted leaf occurs in the list at the end of the same left and right turns, with its own audit path, or a collision; rests on the 0x00 and 0x01 prefixes |
| MerkleProofs.AcceptedExactlyAt | crates/grease-pkg/src/lib.rs:812-868 | with no collision among the hashed strings, acceptance under any claimed index and size holds if and only if some leaf with the same turns is this one and the proof is its audit path |
| MerkleProofs.SameTurnsSameVerdict | crates/grease-pkg/src/lib.rs:833-860 | index and size are checked only through the turns they make: two claims with the same turns get the same verdict for every root and proof |
| MerkleProofs.TurnsTellLeavesApart | crates/grease-pkg/src/lib.rs:833-860 | in a tree of one size different indices make different turns |
| MerkleProofs.TurnsDoNotTellSizes | crates/grease-pkg/src/lib.rs:833-860 | the first leaf of three and the first leaf of four make the same turns |
| MerkleProofs.DomainsAreSeparate | crates/grease-pkg/src/lib.rs:783-799 | no leaf is hashed as the same string as any interior node |
| MerkleProofs.RootOfOneLeaf | crates/grease-pkg/src/lib.rs:783-790 | the root of one leaf d is h([0x00] + d), written with the hash and literal bytes only |
| MerkleProofs.RootOfParts | crates/grease-pkg/src/lib.rs:792-799 | for a length of a that is a power of two and 0 < \|b\| <= \|a\|, the root of a + b is h([0x01] + root of a + root of b), left before right, as section 2.1 of RFC 6962 writes it |
| MerkleProofs.TwoLeaves | crates/grease-pkg/src/lib.rs:812-868 | both leaves of the two-leaf tree are accepted, with the root and the one-node proofs written out in the hash and literal bytes |
| MerkleProofs.RootCommitment | crates/grease-pkg/src/lib.rs:785-799 | equal roots of two nonempty lists of any lengths mean equal lists, or a collision between their hashed strings |
| MerkleProofs.ExactLength | crates/grease-pkg/src/lib.rs:836-860 | with 32-byte nodes "too long" and "too short" are exactly the two sides of the path length, which is at most 64 for u64 sizes |
| ByteStrings.CutAfterAscii | crates/bash/src/logging.rs:265-271 | UTF-8 text (section 4 of RFC 3629) cut just after an ASCII byte is UTF-8 on both sides |
| LogWindow.StringBuffer.BoundTail | crates/bash/src/logging.rs:258-287 | the in-place raw-byte scan leaves exactly the specified tail, and the buffer is still text |
| LogWindow.TailIsExactly | crates/bash/src/logging.rs:258-287 | a terminated buffer over the cap keeps its longest line-aligned tail shorter than the cap, or exactly its last line when that tail is empty, and the cut is the only one that does |
| LogWindow.TailIsAligned | crates/bash/src/logging.rs:263-286 | on every input the cut is on a line boundary and a nonempty buffer stays nonempty |
| LogWindow.Idempotent | crates/bash/src/logging.rs:254-262 | bounding twice is bounding once, for every buffer and cap |
| LogWindow.FittingBufferIsLeftAlone | crates/bash/src/logging.rs:258-261 | a buffer of at most the cap, exactly the cap included, is left alone |
| LogWindow.CutsBetweenCharacters | crates/bash/src/logging.rs:265-275 | the cut never splits a multi-byte character, wherever the scan started |
| LogWindow.PromiseKeptExactlyWhen | crates/bash/src/logging.rs:254-287 | the documented promise, at most max_bytes or a single longer line, is kept if and only if the buffer fits, is one line, or has a newline among its last max_bytes bytes |
| LogWindow.FitsExactlyWhen | crates/bash/src/logging.rs:258-287 | the size bound alone, with no exception for a long line, holds if and only if the buffer fits, a line starts within the last max_bytes bytes, or a terminated last line is exactly that long |
| LogWindow.UnterminatedBufferIsLeftWhole | crates/bash/src/logging.rs:272-275 | an unterminated two-line buffer over the cap from which nothing is dropped, which breaks the documented promise |
| LogWindow.StringBuffer.PushLine | crates/clank-embed/src/log_sink.rs:76-79 | the buffer gains the line and a newline only if it lacks one |
| LogWindow.DurableIsRecent | crates/clank-embed/src/log_sink.rs:75-82 | after any lines the buffer is a line-aligned suffix of everything appended, holds every line-aligned suffix shorter than the cap, and fits the cap or is one line |
| LogWindow.NativeIsRecent | crates/bash/src/logging.rs:97-130 | the appended and rotated file has the same window property within twice the cap |
| LogWindow.NativeIsText | crates/bash/src/logging.rs:126-129 | the native file stays UTF-8, so rotation never silently gives up reading it |
| LogWindow.SinksAgree | crates/bash/src/logging.rs:114-118 | fed the same lines, both sinks end with the same longest line-aligned tail shorter than the cap, that of everything appended |
| LogSinks.DurableLogSink.Append | crates/clank-embed/src/log_sink.rs:70-87 | memory and disk change only under the appended file's name, the file becomes the buffer, and the disk is never read |
| LogSinks.DurableLogSink.Accumulate | crates/clank-embed/src/log_sink.rs:72-82 | one buffer gains the line and is bounded; every other buffer is untouched |
| LogSinks.DurableLogSink.BufferFor | crates/clank-embed/src/log_sink.rs:71-75 | the entry of a file is created empty on first use and never seeded from disk; other buffers are untouched |
| LogSinks.DefaultLogSink.WriteLine | crates/bash/src/logging.rs:97-112 | one native append changes one file: the line, its newline, and a rotation if that makes it too long |
| LogSinks.DefaultLogSink.RotateIfOversized | crates/bash/src/logging.rs:119-130 | a file is rewritten only if over twice the cap and readable as text; other files are untouched |
| LogSinks.ReplayConverges | crates/clank-embed/src/log_sink.rs:13-21 | over every run with any crashes leaving any disk behind, once replay has caught up each touched file equals that of the crash-free run and depends on its own lines alone |
| LogSinks.ReplayNeverSeesTheDisk | docs/architecture/replay-safety.md:47-59 | also in the middle of a replay, a touched file is a recent window of the calls replayed so far; nothing left by the crash survives in it |
| LogSinks.StepKeepsInStep | crates/clank-embed/src/log_sink.rs:70-87 | every append, crash and replay step keeps memory and disk determined by the calls executed since the last crash |
| LogSinks.DirectoriesAgree | crates/clank-embed/src/log_sink.rs:34-42 | the native directory and the durable one after any crashes hold, file by file, the same longest line-aligned tail shorter than the cap |
| LogSinks.AppendSinkDuplicates | docs/architecture/replay-safety.md:3-12 | replaying one line through the append sink over the file a crash left changes nothing if and only if the line is a single one over the cap, or any over twice the cap; a line within the cap is there twice |
| LogLines.ChunkIsTheLine | crates/clank-embed/src/log_sink.rs:76-79 | a line with and without its final newline adds the same bytes, the line and one 0x0A |
| LogLines.EverythingReadsBack | crates/bash/src/logging.rs:106-109 | split at 0x0A, everything appended is exactly the lines, in order |
| LogLines.SinksReadBack | crates/clank-embed/src/log_sink.rs:75-82 | after any lines the durable buffer and the native file split into the newest of the lines, each whole and the last always there |
| LogLines.LogFileReadsBack | crates/clank-embed/src/log_sink.rs:70-87 | in every run with any crashes each log file splits into the newest of the lines logged to it by the calls executed since the last crash |
| LogLines.NativeFileReadsBack | crates/bash/src/logging.rs:97-130 | the native directory's files split into the newest of the lines logged to them |
| LogLines.FirstLineIsWritten | crates/bash/src/logging.rs:97-130 | the first line of a log is in its file byte for byte with one newline, up to the cap in the durable sink and twice the cap in the native one |
| LogLines.FilenamesAreFixed | crates/bash/src/logging.rs:146-157 | the four log files and their names |
| Transcripts.Transcript.RecordCommand | crates/bash/src/lib.rs:161-166 | adds a masked command with no output and enforces nothing |
| Transcripts.Transcript.RecordOutput | crates/bash/src/lib.rs:175-185 | output joins the newest command, masked only when it is text, and the window is then settled |
| Transcripts.Transcript.EnforceCap | crates/bash/src/lib.rs:207-236 | the loop ends and leaves the settled window |
| Transcripts.Transcript.EvictAt | crates/bash/src/lib.rs:218-234 | the oldest command leaves, its text is stashed, and the marker counts it and loses its summary |
| Transcripts.Transcript.StashDropped | crates/bash/src/lib.rs:241-258 | the buffer keeps the last LAST_DROPPED_CAP bytes of what it held and the dropped command's text |
| Transcripts.Transcript.Trim | crates/bash/src/lib.rs:310-337 | drops up to n commands and returns how many |
| Transcripts.Transcript.Render | crates/bash/src/lib.rs:263-290 | the loop produces the entries' texts in order |
| TranscriptText.CommandReads | crates/bash/src/lib.rs:281-286 | what comes before the first newline of a rendered command is `clank$ ` and the command, and all that follows is the output |
| TranscriptText.MarkerReads | crates/bash/src/lib.rs:268-280 | the two markers start with their own words, their digits read back as the count, and a summary's text stands whole on the lines after |
| TranscriptText.EntryStandsInWindow | crates/bash/src/lib.rs:263-290 | each entry's text stands whole between the texts of those before and after it |
| TranscriptText.StashReads | crates/bash/src/lib.rs:241-248 | a dropped command reads the same in the side buffer, behind what was there |
| TranscriptText.StashIsTheEnd | crates/bash/src/lib.rs:249-256 | however full it was, the side buffer ends with the newest output, of which it holds up to 131072 bytes |
| TranscriptText.SummaryIsShown | crates/bash/src/lib.rs:263-280 | a summary that is written is shown at once, at the head of the window, under the marker's count |
| TranscriptText.OutputsAccumulate | crates/bash/src/lib.rs:161-185 | in every run, right after a command and its outputs, the newest entry is the masked command with all its outputs in order, each masked if it is text |
| Transcripts.Transcript.GetPendingSummary | crates/bash/src/lib.rs:344-355 | a span is pending exactly when the marker has no summary and text was kept; the text is decoded lossily |
| Utf8Text.LossyAfterCut | crates/bash/src/lib.rs:249-256 | cutting UTF-8 text at any byte and decoding the rest lossily gives at most three replacement characters, then the rest of the text as it was |
| Utf8Text.BrokenLengthExactly | crates/bash/src/lib.rs:350-355 | a broken sequence is its first byte and as many more as could still have become a character, and no other number |
| Utf8Text.TruncatedIsOneReplacement | crates/bash/src/lib.rs:350-355 | a character cut short anywhere and followed by ASCII or nothing gives one replacement character and then the rest |
| Utf8Text.StrayByteIsOneReplacement | crates/bash/src/lib.rs:350-355 | a byte that can start no character gives one replacement character, whatever follows |
| Utf8Text.EncodesExactly | crates/grease-pkg/src/lib.rs:250-251 | bytes are the encoding of a text if and only if they are UTF-8 and decode to it |
| Utf8Text.OrderIsKept | crates/grease-pkg/src/lib.rs:250-251 | encodings are ordered byte for byte as their characters, as section 1 of RFC 3629 says |
| Transcripts.Transcript.SetMarkerSummary | crates/bash/src/lib.rs:363-368 | fills the marker's summary and drains the buffer, or does nothing without a marker; the cap is not enforced |
| Transcripts.TokensBoundText | crates/bash/src/lib.rs:187-201 | a window's estimated cost bounds its command, output and summary bytes from both sides |
| Transcripts.DropFreesTokens | crates/bash/src/lib.rs:218-226 | in a window with no marker but a leading one, a drop frees the dropped command's cost and, since it clears the summary, the summary's cost too |
| Transcripts.TrimAdds | crates/bash/src/lib.rs:305-337 | trimming a and then b equals trimming a + b, in state and in summed return value |
| Transcripts.EvictionIsTheLeastTrim | crates/bash/src/lib.rs:203-236 | enforcing the cap is the trim by the least count whose window fits or has one command left, though each drop also removes the summary's cost |
| TranscriptRuns.RunKeepsInv | crates/bash/src/lib.rs:161-368 | every sequence of operations keeps the window and the side buffer in step with an independent account of the commands recorded and the text dropped |
| TranscriptRuns.WindowAccounting | crates/bash/src/lib.rs:79-84 | after every run, marker count plus survivors is every command since the last clear, the survivors are their suffix, and the newest is among them |
| TranscriptRuns.CapIsMet | crates/bash/src/lib.rs:168-185 | right after an output is recorded the window meets its cap, so that its text is at most four bytes per token of the cap, or holds one command |
| TranscriptRuns.DroppedSpanIsExact | crates/bash/src/lib.rs:241-258 | after every run the buffer is exactly the last LAST_DROPPED_CAP bytes of all text dropped since the last successful summary or discard |
| TranscriptRuns.LastBytesAbsorbs | crates/bash/src/lib.rs:252-256 | bounding the buffer at every drop loses nothing that bounding it once at the end would keep |
| TranscriptRuns.PendingAfterStep | crates/bash/src/lib.rs:339-368 | after every run and operation, a span is pending if and only if one was or something was just dropped, and the operation was no summary, discard or clear |
| TranscriptRuns.PendingTextExactly | crates/bash/src/lib.rs:339-355 | after every run, the returned text is the last bytes, lossily decoded, of what a clear left behind and of the counted commands that no drain took; it is that of exactly the counted commands if and only if nothing was carried over a clear and nothing counted was drained, or the commands not drained fill the buffer alone |
| TranscriptRuns.BufferExactly | crates/bash/src/lib.rs:241-258 | the same equivalence for the bytes of the side buffer, also while no summary is pending |
| TranscriptRuns.DropAfterSummary | crates/bash/src/lib.rs:220-226 | after every run, the first drop after a summary is offered for summary alone, under the count of everything |
| TranscriptRuns.DropAfterClear | crates/bash/src/lib.rs:292-303 | after every run, the first drop after a clear counts one, over all the text the clear left behind |
| TranscriptRuns.TrimDrops | crates/bash/src/lib.rs:305-337 | any number of drops take exactly the oldest commands out of the window and move their text, and nothing else, to the buffer |
| TranscriptRuns.ShownHistory | crates/bash/src/lib.rs:260-290 | the text of all commands since the last clear is that of the dropped ones followed by what is shown after the marker |
| Templates.FillBody | crates/grease-pkg/src/lib.rs:121-149 | the loop over arguments computes the sequential fill, or its first missing argument |
| Templates.FailsExactlyWhenMissing | crates/grease-pkg/src/lib.rs:117-142 | filling fails if and only if some required argument has neither value nor default, and names the first such one |
| TemplateValues.FailsExactlyWhenUnfilled | crates/grease-pkg/src/lib.rs:121-142 | filling fails if and only if some required argument has no pair of its name and no default, and names the first such one |
| TemplateValues.ProvidedValueFills | crates/grease-pkg/src/lib.rs:128-136 | each hole of an argument is filled with the first value provided under its name, whatever the default |
| TemplateValues.DefaultFills | crates/grease-pkg/src/lib.rs:132-145 | with no pair of its name, a hole is filled with the default, or with nothing |
| TemplateValues.TheRestStays | crates/grease-pkg/src/lib.rs:117-121 | literal text and holes of undeclared names stay as they are |
| TemplateValues.ProvidedPlaceholder | crates/grease-pkg/src/lib.rs:128-136 | the written-out `{{name}}` between plain text becomes the first value provided under that name |
| TemplateValues.DefaultPlaceholder | crates/grease-pkg/src/lib.rs:132-145 | without one it becomes the default, else nothing, and a required argument is an error |
| Templates.FillIsSimultaneous | crates/grease-pkg/src/lib.rs:117-149 | unless text or an earlier value takes part in the placeholder of an argument still to be filled, the replacement loop is one simultaneous substitution: first provided value, else default, else nothing, undeclared names untouched |
| Templates.ReplaceIsFillOne | crates/grease-pkg/src/lib.rs:135-144 | one textual replacement fills exactly the holes of that name |
| TemplateOrder.SimultaneousExactlyWhen | crates/grease-pkg/src/lib.rs:117-149 | with distinct brace-free names and nothing missing, every step of the loop is a simultaneous substitution in every body if and only if no value takes part in the placeholder of a later argument, unless that argument puts its own placeholder back |
| TemplateOrder.OrderIrrelevantExactlyWhen | crates/grease-pkg/src/lib.rs:121-149 | every order of the declarations gives the same text in every body if and only if that holds between any two arguments |
| TemplateOrder.ReplaceChanges | crates/grease-pkg/src/lib.rs:135-144 | replacing an occurring placeholder by anything else changes the text |
| Templates.OrderFree | crates/grease-pkg/src/lib.rs:126-147 | for one body, the result does not depend on the order of the declarations if no value that gets there takes part in a later placeholder; repeated names included as long as the first of each stays first |
| Templates.DistinctNamesInAnyOrder | crates/grease-pkg/src/lib.rs:126-147 | declarations with distinct names may come in any order |
| Templates.OrderShowsThroughValues | crates/grease-pkg/src/lib.rs:134-136 | two orders of the same arguments give different texts when a value holds a placeholder |
| Prompts.ParseMarkdown | crates/grease-pkg/src/lib.rs:249-356 | the parser over the bytes of a whole file, error cases included |
| Prompts.FindFence | crates/grease-pkg/src/lib.rs:159-170 | the scan over whole lines finds the split at the first fence |
| Prompts.ReadHeader | crates/grease-pkg/src/lib.rs:255-334 | the loop over header lines, with the item being built, computes the header or the first line's error |
| PromptRules.ClosingFenceIsTheFirst | crates/grease-pkg/src/lib.rs:151-171 | header and body are split at a line if and only if it is the first one that is exactly three dashes |
| PromptRules.HeaderAcceptedExactly | crates/grease-pkg/src/lib.rs:263-348 | a header is accepted if and only if each line, classified by itself, stands where it may (items under `arguments`, fields under an item with no top-level line between), some line is `name`, and every item's last name is nonempty; the two errors of a whole header are characterized likewise |
| PromptRules.AcceptedExactly | crates/grease-pkg/src/lib.rs:246-356 | a file is accepted if and only if it is UTF-8, has both fences, and has such a header |
| PromptRules.RejectedExactly | crates/grease-pkg/src/lib.rs:246-348 | a rejected prompt lacks a fence, or the error names its first header line that may not stand where it stands, or a name is missing, or an argument is unnamed, in that order |
| PromptRoundTrip.SplitKeyLine | crates/grease-pkg/src/lib.rs:175-190 | a double-quoted scalar reads back verbatim, colons, quotes and outer spaces included |
| PromptRoundTrip.FenceAfterHeader | crates/grease-pkg/src/lib.rs:159-171 | the closing fence of a printed header is found wherever the body has fence lines of its own |
| PromptRoundTrip.ArgParses | crates/grease-pkg/src/lib.rs:297-333 | the printed lines of an argument flush the one before and build this one |
| PromptRoundTrip.RoundTrip | crates/grease-pkg/src/lib.rs:249-356 | printing a canonical package to bytes and parsing them gives the same package, body verbatim |
| PromptRoundTrip.AcceptedIsCanonical | crates/grease-pkg/src/lib.rs:281-356 | whatever the parser accepts has one-line scalars, named arguments and no empty optional value |
| PromptRoundTrip.CanonicalIffAuthorable | crates/grease-pkg/src/lib.rs:235-356 | the canonical packages are exactly those that some file parses to |
| PromptRoundTrip.PrintingNormalizes | crates/grease-pkg/src/lib.rs:249-356 | however a prompt was written, printing what was parsed and parsing again changes nothing |
| PromptReadings.ScalarReads | crates/grease-pkg/src/lib.rs:173-190 | with any whitespace around key and value, a double- or single-quoted scalar stands for what is between the quotes and a plain one for itself |
| PromptReadings.KeysAreRead | crates/grease-pkg/src/lib.rs:269-291 | from any point of the header, a top-level key sets its own field and ends the arguments list; an unknown key sets nothing and an empty model is none |
| PromptReadings.DashIsRead | crates/grease-pkg/src/lib.rs:299-319 | a dash at any indentation starts an argument that is optional, undescribed and without a default but for the field on its line |
| PromptReadings.BareDashIsRead | crates/grease-pkg/src/lib.rs:299-320 | a dash alone starts an argument with nothing set and adds the one before to the list |
| PromptReadings.BlankIsSkipped | crates/grease-pkg/src/lib.rs:263-267 | whitespace alone changes nothing, anywhere in the header |
| PromptReadings.FieldIsRead | crates/grease-pkg/src/lib.rs:193-205 | an indented line sets one field of the argument being built: an empty default is none, an unknown key sets nothing |
| PromptReadings.TrueExactly | crates/grease-pkg/src/lib.rs:200-200 | `required` holds for `true` in any mixture of cases and for nothing else |
| PromptReadings.BadLines | crates/grease-pkg/src/lib.rs:275-334 | which error an undashed line gives: no colon, an indented line outside the arguments, a field before any dash |
| PromptReadings.BadDashes | crates/grease-pkg/src/lib.rs:293-319 | which error a dashed line gives: outside the arguments, or without a colon |
| PromptReadings.LineEndsDoNotMatter | crates/grease-pkg/src/lib.rs:151-171 | each header line and each fence may end in a newline or a carriage return and a newline, in any mixture: the same package is read |
| PromptReadings.SmallestFile | crates/grease-pkg/src/lib.rs:246-356 | a file with a plain name and a body is enough, everything else is empty or absent |
| Scenarios.ParseScenario | crates/clank-conformance/src/scenario.rs:200-451 | the line loop and the final loop over steps compute the specified scenario or error |
| ScenarioInvariants.ParseIsWellFormed | crates/clank-conformance/src/scenario.rs:200-451 | no text reaches the `unreachable!`; every accepted text yields at least one step, strictly increasing step lines within the file, and no stream both unasserted and asserted |
| ScenarioInvariants.LineKeepsInv | crates/clank-conformance/src/scenario.rs:214-433 | every line keeps the invariant that an open payload has a command as its last step |
| ScenarioRules.NothingIsOverwritten | crates/clank-conformance/src/scenario.rs:344-431 | later lines only add: finished steps never change, and a stated exit, prompt, choice list or backend is never replaced |
| ScenarioAcceptance.AcceptedExactly | crates/clank-conformance/src/scenario.rs:192-197 | a text is accepted if and only if every line, classified by itself, may stand where it stands (headers before steps, expectations after, `exit`, `prompt~` and `choices` at most once per step, `@only` once, `+` right below a command), some line starts a step, and no step leaves a stream both unasserted and asserted |
| ScenarioAcceptance.ParsedExactly | crates/clank-conformance/src/scenario.rs:192-197 | every text is accepted, or rejected at the line number of its first line that may not stand where it stands, else at line 1 when no line starts a step, else at the line of the first step with a stream both unasserted and asserted |
| ScenarioAcceptance.NextLineExactly | crates/clank-conformance/src/scenario.rs:224-433 | after any accepted lines, the next one is accepted if and only if the lines above allow its kind there |
| ScenarioAcceptance.ContinuationExactlyBelowCommand | crates/clank-conformance/src/scenario.rs:214-219 | after any accepted lines `+` is accepted if and only if the line right above is `run` or `+` |
| ScenarioAcceptance.ExitExactlyOncePerStep | crates/clank-conformance/src/scenario.rs:220-222 | after any accepted lines a readable `exit` is accepted if and only if a step has started and has stated none |
| ScenarioRoundTrip.RoundTrip | crates/clank-conformance/src/scenario.rs:185-451 | printing a canonical scenario and parsing it gives back its headers, actions and expectations; only line numbers are those of the printed file |
| ScenarioRoundTrip.CanonicalIffWritable | crates/clank-conformance/src/scenario.rs:200-451 | up to line numbers, the canonical scenarios are exactly those that some text parses to |
| ScenarioRoundTrip.SplitRendered | crates/clank-conformance/src/scenario.rs:181-190 | a keyword and payload joined by one space split into the same two, also with spaces in the payload or an empty payload |
| ScenarioRoundTrip.ParseU8Decimal | crates/clank-conformance/src/scenario.rs:389-400 | every exit code from 0 to 255 reads back from its decimal text |
| ScenarioRoundTrip.SplitOfJoin | crates/clank-conformance/src/scenario.rs:416-422 | comma-free choices joined by commas split into the same list |
| ScenarioComments.UnreadLine | crates/clank-conformance/src/scenario.rs:227-230 | from any state, whitespace followed by `#` and any text, and whitespace alone, only close the command to continuations |
| ScenarioComments.ClosedMakesNoDifference | crates/clank-conformance/src/scenario.rs:214-230 | only a `+` line asks whether the command above may go on |
| ScenarioComments.UnreadLinesChangeNothing | crates/clank-conformance/src/scenario.rs:224-230 | such a line put anywhere that is not directly above a `+` leaves the same scenario or the same error, and only later line numbers change |
| ScenarioReadings.LineIsRead | crates/clank-conformance/src/scenario.rs:181-190 | a line is its keyword and all that follows one space, unchanged |
| ScenarioReadings.RunStartsStep | crates/clank-conformance/src/scenario.rs:272-285 | `run` starts a step that expects no output, status 0 and no prompt, and takes continuations |
| ScenarioReadings.AnswerStartsStep | crates/clank-conformance/src/scenario.rs:306-318 | `answer`, also with an empty text, starts a step with the same strict expectations, and takes none |
| ScenarioReadings.StrictByDefault | crates/clank-conformance/src/scenario.rs:50-78 | after any accepted lines, a step that has not stated its exit status expects 0 |
| ScenarioReadings.OutputsAreStated | crates/clank-conformance/src/scenario.rs:344-383 | each output keyword adds one line, one part or anything at all to its own stream, and changes nothing else |
| ScenarioReadings.ExitCodes | crates/clank-conformance/src/scenario.rs:389-400 | digits, with or without a plus sign, are their decimal value up to 255; larger numbers, a minus sign and no digits are refused |
| ScenarioReadings.ExitIsStated | crates/clank-conformance/src/scenario.rs:384-400 | `exit` with any whitespace around takes a code, `any` or `nonzero`, and counts as stated |
| ScenarioReadings.HeadersAreStated | crates/clank-conformance/src/scenario.rs:234-268 | above the steps `@only` names one backend and each `@requires` adds one tag, whatever the whitespace around them |
| ScenarioReadings.HeaderErrors | crates/clank-conformance/src/scenario.rs:234-268 | which error each bad header gives |
| ScenarioReadings.ActionErrors | crates/clank-conformance/src/scenario.rs:271-331 | which error each bad action gives |
| ScenarioReadings.ExpectationErrors | crates/clank-conformance/src/scenario.rs:344-400 | which error each bad output or exit expectation gives |
| ScenarioReadings.PromptErrors | crates/clank-conformance/src/scenario.rs:401-431 | which error each bad prompt expectation and an unknown directive give |
| ScenarioReadings.NoStepError | crates/clank-conformance/src/scenario.rs:335-342 | an expectation, or an unknown directive, before any step is refused as that |
| Records.Record.Render | crates/bash/src/logging.rs:214-247 | the loops over fields and characters produce the specified line |
| Records.Record.AddField | crates/bash/src/logging.rs:200-208 | a field with an empty value is skipped, any other joins the end |
| Records.RecordRoundTrip | crates/bash/src/logging.rs:185-252 | for kinds without spaces and keys without `=`, a decoder recovers kind, keys in order and values, lost control characters as spaces |
| Records.FaithfulExactlyWhen | crates/bash/src/logging.rs:210-247 | the promised faithful round trip holds if and only if no value holds a control character other than newline, carriage return and tab |
| Records.BellIsLost | crates/bash/src/logging.rs:229-230 | a value that comes back changed |
| Records.OnePhysicalLine | crates/bash/src/logging.rs:210-247 | with clean kind and keys the rendering has no newline and no control character, whatever the values |
| Records.SameLineExactlyWhen | crates/bash/src/logging.rs:185-247 | two records have the same line if and only if they have the same kind and fields up to lost control characters |
| Records.FieldStands | crates/bash/src/logging.rs:214-244 | between the fields before and after it, a field is a space, its key, `=`, and its value: bare if no character is whitespace, a quote, a backslash or a control character, between quotes if whitespace alone is |
| Texts.ClassesAreFixed | crates/bash/src/logging.rs:250-252 | the whitespace and control characters, code point by code point |
| Records.EscapedValue | crates/bash/src/logging.rs:220-240 | any other character makes the value quoted and becomes its literal escape, or a space, where it stands |

## Left out

- The hash, signatures and JSON: SHA-256 is an arbitrary function to 32 bytes; ed25519, base64 and serde are not part of this model.
- Merkle.VerifyInclusionProof: the errors carry their kind and not their message text.
- Input and output failures, directory creation and the environment lookups behind the log directory and the context cap: a log directory is a map from names to bytes, and writes succeed.
- LogSinks.DefaultLogSink.WriteLine: the line and its newline are two writes here as in the source, but another process writing between them is not modelled.
- LogSinks.DurableLogSink.Append: the source's one method is three here (find the buffer, add to it, write the file).
- LogSinks.ReplayConverges: replay re-executes the recorded calls one by one; the durable runtime that re-runs them, and the installed-sink slot through which lines are routed, are not part of this model.
- `secretenv::mask_values` is not part of this model; the transcript takes an arbitrary masking function, constant over its life, whereas the source's set of secrets may grow. Nothing proved depends on what it masks.
- Transcripts.Transcript.EvictAt: the source repeats these lines in `enforce_cap` and `trim`; they are one method here.
- Transcripts.Transcript.EnforceCap: sizes and counts are unbounded integers; overflow of a machine word is not modelled. `set_cap`, which exists for tests, is left out.
- Prompts.ParseMarkdown: one header line is a function of the parser's variables, and the loop over the lines is the method's.
- Templates.FillIsSimultaneous: for a single body the condition is sufficient, not necessary, since values may fill each other in a circle back to where they were; the exact conditions are over all bodies. Declared names with braces in them are not covered.
- Scenarios.ParseScenario: the scenario's name and path and the message texts are left out; one line is a function of the parser's variables, and the loop over the lines is the method's. `${TMP}` substitution is left out.
- Records.RecordRoundTrip: kinds with spaces and keys with `=` are not recoverable; callers use literal ones. A record is built by updating an object, where the source passes it along by value.
- URL redaction, authorization, sessions, providers, terminal code and the registry client are not part of this model.
