/** The vocabulary the reader borrows from `ThreadParsing`,
    `ParsingConstants` and `ThreadInfo`. Only the two inline-state markers
    are pinned down; the header and state extractors are parameters of the
    reader, because their implementation is not part of this model. */
module ThreadParsing {
  import opened Wrappers
  import opened JavaText

  /** `ParsingConstants.THREAD_INFORMATION_BEGIN`: every thread header
      opens with the quote around the thread's name. */
  const ThreadInformationBegin: string := "\""

  /** `ParsingConstants.NEW_LINE`, the separator appended after each
      trimmed stack frame. */
  const NewLine: string := "\r\n"

  /** `java.lang.Thread.State` */
  datatype ThreadState = New | Runnable | Blocked | Waiting | TimedWaiting | Terminated

  /** `Thread.State.toString()`: the enum constant's name. An explicit
      state is therefore never confused with the two informal labels. */
  function StateName(s: ThreadState): (name: string)
    ensures name != "runnable" && name != "waiting on condition"
    ensures forall c :: c in name ==> 'A' <= c <= 'Z' || c == '_'
  {
    match s
    case New => "NEW"
    case Runnable => "RUNNABLE"
    case Blocked => "BLOCKED"
    case Waiting => "WAITING"
    case TimedWaiting => "TIMED_WAITING"
    case Terminated => "TERMINATED"
  }

  /** One thread record. The reader only ever changes `state` and
      `stackTrace`; the other fields are whatever the header extractor
      found. */
  datatype ThreadInfo = ThreadInfo(
    name: string,
    id: string,
    nativeId: string,
    daemon: bool,
    state: string,
    stackTrace: Option<string>)

  /** The two extractors of `ThreadParsing` that `parse` calls:
      `extractThreadInfoFromLine` and `extractThreadState2`. */
  datatype Extractors = Extractors(
    threadInfo: string -> Option<ThreadInfo>,
    threadState: string -> Option<ThreadState>)

  /** `line.startsWith(ParsingConstants.THREAD_INFORMATION_BEGIN)` */
  predicate IsHeaderStart(line: string) {
    StartsWith(line, ThreadInformationBegin)
  }

  /** `ThreadParsing.hasRunnableState(line)` */
  predicate HasRunnableState(line: string) {
    Contains(line, "runnable")
  }

  /** `ThreadParsing.hasWaitingOnConditionState(line)` */
  predicate HasWaitingOnConditionState(line: string) {
    Contains(line, "waiting on condition")
  }

  /** A line carries the informal `runnable` label exactly when the word
      occurs somewhere in it. */
  lemma HasRunnableStateIff(line: string)
    ensures HasRunnableState(line) <==> exists k: nat :: OccursAt(line, "runnable", k)
  {
    ContainsIff(line, "runnable");
  }

  /** A line carries the informal `waiting on condition` label exactly when
      the phrase occurs somewhere in it. */
  lemma HasWaitingOnConditionStateIff(line: string)
    ensures HasWaitingOnConditionState(line)
      <==> exists k: nat :: OccursAt(line, "waiting on condition", k)
  {
    ContainsIff(line, "waiting on condition");
  }

  /** Same thread: the fields taken from the header agree. */
  predicate SameThread(a: ThreadInfo, b: ThreadInfo) {
    a.name == b.name && a.id == b.id && a.nativeId == b.nativeId && a.daemon == b.daemon
  }
}
