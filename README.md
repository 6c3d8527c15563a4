# jthreadump-parser: the thread-dump segmentation loop, in Dafny

This project models `ThreadDumpReader.parse` of jthreadump-parser, the
loop that turns the lines of a JVM thread dump (`jstack`, `kill -3`) into
an ordered list of `ThreadInfo` records. A cursor `i` walks the lines.
Each line that starts with the header marker (the quote around a thread
name) and that the header extractor accepts opens a record. The line after
it may hold an explicit `Thread.State:` value, which overrides the inline
`runnable` label. If that line is itself a header, it yields a second,
"together" record. The following non-blank, non-header lines are trimmed
and joined into the first record's stack trace.

Files:

- `wrappers.dfy`: `Option` and `Result`.
- `java_text.dfy` (module `JavaText`): `startsWith`, `contains`,
  `String.trim` and commons-lang `isNotBlank`, over `seq<char>`.
- `thread_parsing.dfy` (module `ThreadParsing`): the header marker, the
  `NEW_LINE` constant, `Thread.State`, the `ThreadInfo` record, the two
  inline-state markers, and the two extractors the reader calls.
- `thread_dump_reader.dfy` (module `ThreadDumpReader`): the recursive
  specification (`ParseFrom`, `ScanRecord`, `BodyEnd`, `StackText`). It
  also holds the imperative loop (`Parse`, `ReadRecord`, `ReadStackTrace`),
  proved equal to that specification.
- `reader_properties.dfy` (module `ReaderProperties`): the properties of
  the segmentation, proved about the specification.

Modelling decisions:

- `ThreadParsing.extractThreadInfoFromLine` and
  `ThreadParsing.extractThreadState2` are not part of this model. They are
  function-valued parameters (`Extractors`), and every property holds for
  every pair of extractors.
- `hasRunnableState` and `hasWaitingOnConditionState` are "the line
  contains `runnable`" and "contains `waiting on condition`". That is what
  the tests expect of them
  (src/test/java/com/thread/dump/parser/util/ThreadParsingTest.java:183-212).
- `ParsingConstants` is not part of this model either.
  `THREAD_INFORMATION_BEGIN` is taken to be the quote `"` that every header
  starts with. `NEW_LINE` is taken to be `"\r\n"`, the separator the tests
  expect between stack frames (ThreadParsingTest.java:331-333).
- `tlines.get(i)` is unchecked in the source. Here a cursor past the last
  line ends the parse with `Failure(IndexOutOfBounds(i))`, which models the
  Java exception.
- The `setState` and `setStackTrace` calls become datatype updates. A
  record is changed only before it is appended and is never aliased
  afterwards, so the list of values is the same as the list of objects.
- The loop body for one header is split out of `Parse` into `ReadRecord`,
  and the string-builder loop into `ReadStackTrace`, so that each proof
  stays small. `ReadRecord` returns the records the source appends for
  that header, in the source's order. `Parse` appends them.

Three consequences of the code that a reader might not expect:

- No line access is bounds-checked: `tlines.get(i)` at
  ThreadDumpReader.java:46, :69 and :75 throws when the cursor has run
  past the last line. So a truncated dump makes the model fail
  (`HeaderOnLastLineFails`, `BodyRunsOffTheEnd`).
- A "together" record is appended at ThreadDumpReader.java:64, before the
  first header's record at :82. So the pair comes out second header first
  (`TogetherPair`, `RecordsFollowHeaders`).
- The line that stops the accumulation (read at ThreadDumpReader.java:75)
  is skipped by the `for` increment at :31, so a header directly after a
  stack trace yields no record (`HeaderAfterBodyIsSkipped`,
  `StopLineYieldsNoRecord`).

## Model

| member | source | states |
|---|---|---|
| ThreadDumpReader.Parse | src/main/java/com/thread/dump/parser/ThreadDumpReader.java:28-89 | The cursor loop returns exactly the records (or the out-of-range failure) of the specification `Parsed`. Its invariant says the records appended so far, followed by what the scan yields from the cursor, are the whole result. |
| ThreadDumpReader.ReadRecord | src/main/java/com/thread/dump/parser/ThreadDumpReader.java:39-82 | The body of the loop for one accepted header, with its forward and backward cursor moves, computes `ScanRecord`: the records appended, in order, and where the scan resumes. |
| ThreadDumpReader.ReadStackTrace | src/main/java/com/thread/dump/parser/ThreadDumpReader.java:69-76 | The string-builder loop stops at the first blank or header-start line and holds the trimmed lines before it, each followed by `NEW_LINE`. It fails with the index past the end when there is no such line. |
| ThreadDumpReader.BodyEnd | src/main/java/com/thread/dump/parser/ThreadDumpReader.java:69-76 | The accumulation stops at a line that is blank or starts a header, and every line it passed is neither. If no such line exists, `get` fails at the first index past the end. |
| ThreadDumpReader.ScanRecord | src/main/java/com/thread/dump/parser/ThreadDumpReader.java:45-82 | A scan that succeeds moves the cursor strictly forward, stays within the input, and appends one or two records. A scan that fails does so at an index at or past the end. |
| ThreadDumpReader.ParseFrom | src/main/java/com/thread/dump/parser/ThreadDumpReader.java:31-86 | A failure of the scan from any cursor is always an index at or past the end of the input: the reader never reads a line it does not have. |
| ReaderProperties.RecordsFollowHeaders | src/main/java/com/thread/dump/parser/ThreadDumpReader.java:34-82 | Each record is the thread of a distinct accepted header line. The records follow the dump's order, except that a "together" pair comes second header first. |
| ReaderProperties.ScanFromHeaders | src/main/java/com/thread/dump/parser/ThreadDumpReader.java:55-82 | One scan's records come from the header and, for a together pair, the line after it (that one first). Both lines lie before the point where the scan resumes. |
| ReaderProperties.ScanShape | src/main/java/com/thread/dump/parser/ThreadDumpReader.java:55-82 | The last record of a scan carries the header's name, ids and daemon flag. A scan appends two records exactly when the examined line is an accepted header, and then the first is that line's labelled thread and the scan resumes past it. |
| ReaderProperties.AcceptedAtMostMarked | src/main/java/com/thread/dump/parser/ThreadDumpReader.java:34 | Every accepted header line starts with the marker, so there are no more accepted headers than marker lines. |
| ReaderProperties.RecordCountBound | src/main/java/com/thread/dump/parser/ThreadDumpReader.java:31-38 | There are no more records than accepted header lines, and no more than lines that start with the marker. |
| ReaderProperties.ScanCount | src/main/java/com/thread/dump/parser/ThreadDumpReader.java:55-82 | The records one scan appends are at most the accepted headers among the lines it consumes. |
| ReaderProperties.NoHeaderNoRecords | src/main/java/com/thread/dump/parser/ThreadDumpReader.java:34-38 | An input without an accepted header line gives an empty list and no error. |
| ReaderProperties.StatePrecedence | src/main/java/com/thread/dump/parser/ThreadDumpReader.java:41-53 | An explicit state on the line after the header always wins. Without one, an inline `runnable` gives "runnable", and otherwise the extracted state stays. Name, ids and daemon flag come from the header. |
| ReaderProperties.StackTraceFromBody | src/main/java/com/thread/dump/parser/ThreadDumpReader.java:45-80 | After an explicit state line, the stack trace covers the consecutive lines from the one after the state line up to the first blank or header-start line. When the state line itself starts with the marker, accumulation starts one line later, so the line after it is never looked at. The trace is set only if at least one line was taken, a second record comes exactly when the state line is an accepted header, and the scan resumes after the stopping line. |
| ReaderProperties.StackTextFront | src/main/java/com/thread/dump/parser/ThreadDumpReader.java:71-76 | The builder's text is the first line trimmed plus `NEW_LINE`, then the rest, in input order. |
| ReaderProperties.StackTextEmpty | src/main/java/com/thread/dump/parser/ThreadDumpReader.java:78-80 | The builder is empty exactly when no line was appended. |
| ReaderProperties.NoExplicitStateNoTrace | src/main/java/com/thread/dump/parser/ThreadDumpReader.java:51-53 | Without an explicit state line, the record never gets a stack trace and the scan never fails. The cursor resumes right after the header, or after the together header. |
| ReaderProperties.TogetherPair | src/main/java/com/thread/dump/parser/ThreadDumpReader.java:55-67 | A scan yields two records exactly when the examined line is an accepted header. The second thread comes first, labelled "runnable" or "waiting on condition" from its own text, with no stack trace. |
| ReaderProperties.StopLineYieldsNoRecord | src/main/java/com/thread/dump/parser/ThreadDumpReader.java:31-82 | When the accumulation stops beyond the examined line, the stopping line is the header of no record of the parse, even when it is an accepted header. |
| ReaderProperties.ResumeAfterStopLine | src/main/java/com/thread/dump/parser/ThreadDumpReader.java:72-76 | The line that stopped the accumulation ends a body, and the outer scan continues after it, never from it. |
| ReaderProperties.SampleScan | src/main/java/com/thread/dump/parser/ThreadDumpReader.java:45-82 | On a dump whose first thread has a state line and one frame line followed at once by a second header, the first scan yields one record with that state and frame and resumes past the second header. |
| ReaderProperties.HeaderAfterBodyIsSkipped | src/main/java/com/thread/dump/parser/ThreadDumpReader.java:31 | On that dump the whole parse yields only the first thread: a header directly after a stack trace, with no blank line between them, yields no record. |
| ReaderProperties.HeaderOnLastLineFails | src/main/java/com/thread/dump/parser/ThreadDumpReader.java:45-46 | A scan that reaches an accepted header on the last line fails at the index past the end. |
| ReaderProperties.BodyRunsOffTheEnd | src/main/java/com/thread/dump/parser/ThreadDumpReader.java:69-75 | A stack trace that no blank or header line closes fails at the index past the end. This includes a state line on the last line. |
| ReaderProperties.WellTerminatedDumpParses | src/main/java/com/thread/dump/parser/ThreadDumpReader.java:45-75 | The parse succeeds when the dump ends with a blank line that carries no state and no header line is also a state line. |
| ThreadDumpReader.LabelTogether | src/main/java/com/thread/dump/parser/ThreadDumpReader.java:58-65 | The together thread keeps every field but its state. Its state becomes "runnable" if its header contains `runnable`, otherwise "waiting on condition" if it contains `waiting on condition`, and otherwise stays. |
| ThreadParsing.HasRunnableStateIff | src/test/java/com/thread/dump/parser/util/ThreadParsingTest.java:183-196 | A line has the runnable label exactly when `runnable` occurs in it at some index. |
| ThreadParsing.HasWaitingOnConditionStateIff | src/test/java/com/thread/dump/parser/util/ThreadParsingTest.java:198-212 | A line has the waiting-on-condition label exactly when `waiting on condition` occurs in it at some index. |
| JavaText.ContainsIff | src/main/java/com/thread/dump/parser/ThreadDumpReader.java:59-62 | The recursive `contains` holds exactly when the pattern occurs in the string at some index. |
| ThreadParsing.StateName | src/main/java/com/thread/dump/parser/ThreadDumpReader.java:49 | The name of an explicit `Thread.State` is upper case and never one of the two informal labels. |
| JavaText.Trim | src/main/java/com/thread/dump/parser/ThreadDumpReader.java:73 | The trimmed frame is the infix of the line that starts at its first character above U+0020; every character before and after it is at most U+0020, and it neither starts nor ends with such a character. |
| JavaText.TrimDetermined | src/main/java/com/thread/dump/parser/ThreadDumpReader.java:73 | Those two properties define the trimmed string: any infix with only characters up to U+0020 around it and other characters at both ends is it. |
| JavaText.TrimIdempotent | src/main/java/com/thread/dump/parser/ThreadDumpReader.java:73 | Trimming twice is trimming once. |

## Left out

- `read`, `fromFile` and `fromString` (ThreadDumpReader.java:91-108) split a file or a string into lines. They are I/O, so the model starts from the sequence of lines.
- `printLockingThreadInformation` (ThreadDumpReader.java:110-120) only prints to the console and is never called. `StackTraceLock` is used only there.
- `extractThreadInfoFromLine` and `extractThreadState2` are parameters, because their code is not part of this model. Nothing is assumed about them, so the header fields (name, ids, daemon flag) are not modelled.
- Lock holds (`holds`, `holdsForThread`) and most-used methods (`mostUsedMethods`) are in `ThreadParsing`, whose code is not part of this model.
- The sample-file counts in the tests depend on sample files that are not part of this model.
- Object identity of `ThreadInfo` is not modelled, because the records are values here (see above).
