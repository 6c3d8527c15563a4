/** `ThreadDumpReader.parse`: the cursor-driven segmentation of the lines
    of a JVM thread dump into thread records.

    The recursive functions below are the specification: `ParseFrom` is
    the outer scan from a cursor, `ScanRecord` what one accepted header
    contributes and where the scan resumes, `BodyEnd` and `StackText` the
    stack-trace accumulation. The method `Parse` is the loop itself, with
    its mutable cursor, and is proved to compute `Parsed`. */
module ThreadDumpReader {
  import opened Wrappers
  import opened JavaText
  import opened ThreadParsing

  /** The exception `List.get` throws for a cursor past the last line. */
  datatype ParseError = IndexOutOfBounds(index: nat)

  /** A line at which stack-trace accumulation stops: blank, or the start
      of another header. */
  predicate EndsBody(line: string) {
    !IsNotBlank(line) || IsHeaderStart(line)
  }

  /** A line that opens a record: it starts with the header marker and the
      header extractor accepts it. */
  predicate IsAcceptedHeader(line: string, ex: Extractors) {
    IsHeaderStart(line) && ex.threadInfo(line).Some?
  }

  /** Where the accumulation started at cursor `j` stops: the first line
      from `j` on that ends a body, or the out-of-range index `get` fails
      on when there is none. */
  function BodyEnd(lines: seq<string>, j: nat): (r: Result<nat, ParseError>)
    decreases |lines| - j
    ensures r.Success? ==>
      j <= r.value < |lines| && EndsBody(lines[r.value])
      && forall k :: j <= k < r.value ==> !EndsBody(lines[k])
    ensures r.Failure? ==>
      r.error == IndexOutOfBounds(if j < |lines| then |lines| else j)
      && forall k :: j <= k < |lines| ==> !EndsBody(lines[k])
  {
    if j >= |lines| then Failure(IndexOutOfBounds(j))
    else if EndsBody(lines[j]) then Success(j)
    else BodyEnd(lines, j + 1)
  }

  /** The text the `StringBuilder` holds after appending the lines
      `j .. e - 1`, each trimmed and followed by `NewLine`. */
  function StackText(lines: seq<string>, j: nat, e: nat): string
    requires j <= e <= |lines|
    decreases e - j
  {
    if j == e then "" else StackText(lines, j, e - 1) + (Trim(lines[e - 1]) + NewLine)
  }

  /** The informal label a "together" record gets from its own header. */
  function TogetherLabel(th: ThreadInfo, line: string): ThreadInfo {
    if HasRunnableState(line) then th.(state := "runnable")
    else if HasWaitingOnConditionState(line) then th.(state := "waiting on condition")
    else th
  }

  /** The state a header's own text implies. */
  function WithInlineState(th: ThreadInfo, header: string): ThreadInfo {
    if HasRunnableState(header) then th.(state := "runnable") else th
  }

  /** The state an explicit `Thread.State:` line gives, when there is one. */
  function WithExplicitState(th: ThreadInfo, explicit: Option<ThreadState>): ThreadInfo {
    if explicit.Some? then th.(state := StateName(explicit.value)) else th
  }

  /** The record of a "together" header examined after the first one, if
      the line is one and is accepted. */
  function TogetherRecords(examined: string, ex: Extractors): seq<ThreadInfo> {
    if IsHeaderStart(examined) && ex.threadInfo(examined).Some?
    then [TogetherLabel(ex.threadInfo(examined).value, examined)]
    else []
  }

  /** The cursor at which stack-trace accumulation starts for the header at
      `h`: back on the header when there is no explicit state, past the
      state line when there is one, one further when the examined line is
      itself a header. */
  function BodyStart(h: nat, examined: string, ex: Extractors): nat {
    (if ex.threadState(examined).Some? then h + 2 else h) + (if IsHeaderStart(examined) then 1 else 0)
  }

  /** `setStackTrace` only when the builder holds something. */
  function WithStackTrace(th: ThreadInfo, trace: string): ThreadInfo {
    if trace != "" then th.(stackTrace := Some(trace)) else th
  }

  /** What one record scan appends, in order, and the cursor value the
      outer loop increments afterwards plus one. */
  datatype Scan = Scan(emitted: seq<ThreadInfo>, next: nat)

  /** The body of the outer loop for an accepted header at index `h`. */
  function ScanRecord(lines: seq<string>, h: nat, ex: Extractors): (r: Result<Scan, ParseError>)
    requires h < |lines| && IsAcceptedHeader(lines[h], ex)
    ensures r.Success? ==> h < r.value.next <= |lines| && 1 <= |r.value.emitted| <= 2
    ensures r.Failure? ==> r.error.index >= |lines|
  {
    if h + 1 >= |lines| then Failure(IndexOutOfBounds(h + 1))
    else
      var examined := lines[h + 1];
      var start := BodyStart(h, examined, ex);
      match BodyEnd(lines, start)
      case Failure(e) => Failure(e)
      case Success(end) =>
        var thread := ex.threadInfo(lines[h]).value;
        var stated := WithExplicitState(WithInlineState(thread, lines[h]), ex.threadState(examined));
        var first := WithStackTrace(stated, StackText(lines, start, end));
        Success(Scan(TogetherRecords(examined, ex) + [first], end + 1))
  }

  /** A scan whose accumulation stops at `end` succeeds with these parts. */
  lemma ScanRecordSucceeds(lines: seq<string>, h: nat, ex: Extractors, end: nat)
    requires h + 1 < |lines| && IsAcceptedHeader(lines[h], ex)
    requires BodyEnd(lines, BodyStart(h, lines[h + 1], ex)) == Success(end)
    ensures var examined := lines[h + 1];
      var start := BodyStart(h, examined, ex);
      var stated := WithExplicitState(WithInlineState(ex.threadInfo(lines[h]).value, lines[h]), ex.threadState(examined));
      ScanRecord(lines, h, ex)
      == Success(Scan(TogetherRecords(examined, ex) + [WithStackTrace(stated, StackText(lines, start, end))], end + 1))
  {
  }

  /** `records` in front of what `r` produces, or `r`'s error. */
  function Prepend(records: seq<ThreadInfo>, r: Result<seq<ThreadInfo>, ParseError>): Result<seq<ThreadInfo>, ParseError> {
    match r
    case Success(rest) => Success(records + rest)
    case Failure(e) => Failure(e)
  }

  /** Appending in two steps is appending the concatenation. */
  lemma PrependTwice(a: seq<ThreadInfo>, b: seq<ThreadInfo>, r: Result<seq<ThreadInfo>, ParseError>)
    ensures Prepend(a, Prepend(b, r)) == Prepend(a + b, r)
  {
    if r.Success? {
      assert a + (b + r.value) == (a + b) + r.value;
    }
  }

  /** The records the outer loop produces from cursor `i` on. A failure
      is always an index at or past the end of the input: the cursor only
      ever fails by running off the end. */
  function ParseFrom(lines: seq<string>, i: nat, ex: Extractors): (r: Result<seq<ThreadInfo>, ParseError>)
    decreases |lines| - i
    ensures r.Failure? ==> r.error.index >= |lines|
  {
    if i >= |lines| then Success([])
    else if IsAcceptedHeader(lines[i], ex) then
      match ScanRecord(lines, i, ex)
      case Failure(e) => Failure(e)
      case Success(s) => Prepend(s.emitted, ParseFrom(lines, s.next, ex))
    else ParseFrom(lines, i + 1, ex)
  }

  /** A line that is not an accepted header is only stepped over. */
  lemma SkipLine(lines: seq<string>, i: nat, ex: Extractors)
    requires i < |lines| && !IsAcceptedHeader(lines[i], ex)
    ensures ParseFrom(lines, i, ex) == ParseFrom(lines, i + 1, ex)
  {
  }

  /** One pass of the outer loop over an accepted header, seen from the
      records gathered so far: a failed scan is the result, a successful
      one moves its records into the gathered list. */
  lemma AdvanceOverHeader(lines: seq<string>, i: nat, ex: Extractors, threads: seq<ThreadInfo>)
    requires i < |lines| && IsAcceptedHeader(lines[i], ex)
    ensures match ScanRecord(lines, i, ex)
      case Failure(e) => Prepend(threads, ParseFrom(lines, i, ex)) == Failure(e)
      case Success(s) =>
        Prepend(threads, ParseFrom(lines, i, ex)) == Prepend(threads + s.emitted, ParseFrom(lines, s.next, ex))
  {
    if ScanRecord(lines, i, ex).Success? {
      var s := ScanRecord(lines, i, ex).value;
      PrependTwice(threads, s.emitted, ParseFrom(lines, s.next, ex));
    }
  }

  /** `parse(tlines)` */
  function Parsed(lines: seq<string>, ex: Extractors): Result<seq<ThreadInfo>, ParseError> {
    ParseFrom(lines, 0, ex)
  }

  /** The accumulated stack-trace text and the index of the line that
      stopped the accumulation. */
  datatype Body = Body(text: string, end: nat)

  /** Lines 69-76 of `parse`: starting at cursor `i`, append each trimmed
      line and `NewLine` to a string builder until a blank line or a
      header start; every `get` is unguarded. */
  method ReadStackTrace(lines: seq<string>, i: nat) returns (r: Result<Body, ParseError>)
    ensures BodyEnd(lines, i).Failure? ==> r == Failure(BodyEnd(lines, i).error)
    ensures BodyEnd(lines, i).Success? ==>
      r == Success(Body(StackText(lines, i, BodyEnd(lines, i).value), BodyEnd(lines, i).value))
  {
    if i >= |lines| {
      return Failure(IndexOutOfBounds(i));
    }
    var cursor := i;
    var line := lines[cursor];
    var sb := "";
    while IsNotBlank(line) && !IsHeaderStart(line)
      invariant i <= cursor < |lines| && line == lines[cursor]
      invariant BodyEnd(lines, i) == BodyEnd(lines, cursor)
      invariant sb == StackText(lines, i, cursor)
      decreases |lines| - cursor
    {
      AppendAssoc(sb, Trim(line), NewLine);
      sb := sb + Trim(line) + NewLine;
      cursor := cursor + 1;
      if cursor >= |lines| {
        return Failure(IndexOutOfBounds(cursor));
      }
      line := lines[cursor];
    }
    return Success(Body(sb, cursor));
  }

  /** The lambda passed to `ifPresent` for a "together" header `line2`:
      label the second thread from its own header text. */
  method LabelTogether(th: ThreadInfo, line2: string) returns (labelled: ThreadInfo)
    ensures labelled == th.(state := labelled.state)
    ensures HasRunnableState(line2) ==> labelled.state == "runnable"
    ensures !HasRunnableState(line2) && HasWaitingOnConditionState(line2)
      ==> labelled.state == "waiting on condition"
    ensures !HasRunnableState(line2) && !HasWaitingOnConditionState(line2) ==> labelled == th
    ensures labelled == TogetherLabel(th, line2)
  {
    labelled := th;
    if HasRunnableState(line2) {
      labelled := labelled.(state := "runnable");
    } else if HasWaitingOnConditionState(line2) {
      labelled := labelled.(state := "waiting on condition");
    }
  }

  /** Lines 39-82 of `parse`, for an accepted header at cursor `h`: the
      record(s) appended, in order, and the cursor value the outer `for`
      then increments. The "together" record is appended first; `get`
      is unguarded at every step. */
  method ReadRecord(lines: seq<string>, h: nat, ex: Extractors) returns (r: Result<Scan, ParseError>)
    requires h < |lines| && IsAcceptedHeader(lines[h], ex)
    ensures r == ScanRecord(lines, h, ex)
  {
    var threads: seq<ThreadInfo> := [];
    var i := h;
    var line := lines[i];
    var thread := ex.threadInfo(line).value;
    if HasRunnableState(line) {
      thread := thread.(state := "runnable");
    }
    assert thread == WithInlineState(ex.threadInfo(lines[h]).value, lines[h]);

    i := i + 1;
    if i >= |lines| {
      return Failure(IndexOutOfBounds(i));
    }
    line := lines[i];
    var state := ex.threadState(line);
    if state.Some? {
      thread := thread.(state := StateName(state.value));
      line := lines[i];
      i := i + 1;
    } else {
      i := i - 1;
    }
    assert line == lines[h + 1];
    assert thread == WithExplicitState(WithInlineState(ex.threadInfo(lines[h]).value, lines[h]), ex.threadState(line));

    if IsHeaderStart(line) {
      var line2 := line;
      var threadInfo2 := ex.threadInfo(line);
      if threadInfo2.Some? {
        var th := LabelTogether(threadInfo2.value, line2);
        threads := threads + [th];
      }
      i := i + 1;
    }

    assert threads == TogetherRecords(line, ex);
    assert i == BodyStart(h, line, ex);
    ghost var stated, together, start := thread, threads, i;
    var body := ReadStackTrace(lines, i);
    if body.Failure? {
      return Failure(body.error);
    }
    var sb := body.value.text;
    i := body.value.end;
    assert BodyEnd(lines, start) == Success(i) && sb == StackText(lines, start, i);

    if sb != "" {
      thread := thread.(stackTrace := Some(sb));
    }
    assert thread == WithStackTrace(stated, sb);
    ScanRecordSucceeds(lines, h, ex, i);
    threads := threads + [thread];
    return Success(Scan(threads, i + 1));
  }

  /** The outer loop of `parse`: a `for` over the cursor `i`, which a
      record scan moves forward to the line that ended its stack trace.
      Lines that are not accepted headers are skipped. */
  method Parse(lines: seq<string>, ex: Extractors) returns (r: Result<seq<ThreadInfo>, ParseError>)
    ensures r == Parsed(lines, ex)
  {
    var threads: seq<ThreadInfo> := [];
    var i: nat := 0;
    ghost var whole := Parsed(lines, ex);
    assert whole.Success? ==> [] + whole.value == whole.value;
    while i < |lines|
      invariant i <= |lines|
      invariant whole == Prepend(threads, ParseFrom(lines, i, ex))
      decreases |lines| - i
    {
      var line := lines[i];
      if IsHeaderStart(line) {
        var threadInfo := ex.threadInfo(line);
        if threadInfo.Some? {
          AdvanceOverHeader(lines, i, ex, threads);
          var scan := ReadRecord(lines, i, ex);
          if scan.Failure? {
            return Failure(scan.error);
          }
          var next := scan.value.next;
          threads := threads + scan.value.emitted;
          i := next - 1;
        } else {
          SkipLine(lines, i, ex);
        }
      } else {
        SkipLine(lines, i, ex);
      }
      i := i + 1;
    }
    assert threads + [] == threads;
    return Success(threads);
  }
}
