/** Properties of the segmentation that `ThreadDumpReader.Parse` computes:
    where records come from and in which order, how many there can be,
    which rules set each record's state and stack trace, where the scan
    resumes, and when the unguarded cursor runs off the end. */
module ReaderProperties {
  import opened Wrappers
  import opened JavaText
  import opened ThreadParsing
  import opened ThreadDumpReader

  // ---------------------------------------------------------------------
  // Origins and order

  /** The header line each record of one scan comes from: the "together"
      header (the line after `h`) first, then the header at `h`. */
  ghost function ScanOrigins(lines: seq<string>, h: nat, ex: Extractors): seq<nat> {
    if h + 1 < |lines| && IsAcceptedHeader(lines[h + 1], ex) then [h + 1, h] else [h]
  }

  /** The header line of every record `ParseFrom(lines, i, ex)` produces. */
  ghost function Origins(lines: seq<string>, i: nat, ex: Extractors): seq<nat>
    decreases |lines| - i
  {
    if i >= |lines| then []
    else if IsAcceptedHeader(lines[i], ex) then
      match ScanRecord(lines, i, ex)
      case Failure(_) => []
      case Success(s) => ScanOrigins(lines, i, ex) + Origins(lines, s.next, ex)
    else Origins(lines, i + 1, ex)
  }

  /** Dump order, except that a "together" pair is emitted second header
      first. */
  ghost predicate InDumpOrder(o: seq<nat>) {
    forall j1, j2 :: 0 <= j1 < j2 < |o| ==> o[j1] < o[j2] || (j2 == j1 + 1 && o[j1] == o[j2] + 1)
  }

  /** Record `j` is the thread whose accepted header is line `o[j]`. */
  ghost predicate FromHeaders(lines: seq<string>, ex: Extractors, records: seq<ThreadInfo>, o: seq<nat>, lo: nat)
    requires |o| == |records|
  {
    forall j :: 0 <= j < |o| ==>
      lo <= o[j] < |lines| && IsAcceptedHeader(lines[o[j]], ex)
      && SameThread(records[j], ex.threadInfo(lines[o[j]]).value)
  }

  /** The origins of one scan are in dump order up to a together pair. */
  lemma ScanOriginsInOrder(lines: seq<string>, h: nat, ex: Extractors)
    ensures InDumpOrder(ScanOrigins(lines, h, ex))
  {
  }

  /** A scan that succeeds yields the together record exactly when the
      line after the header is an accepted header, and resumes past it. */
  lemma ScanShape(lines: seq<string>, h: nat, ex: Extractors)
    requires h < |lines| && IsAcceptedHeader(lines[h], ex)
    requires ScanRecord(lines, h, ex).Success?
    ensures var s := ScanRecord(lines, h, ex).value;
      var first := s.emitted[|s.emitted| - 1];
      SameThread(first, ex.threadInfo(lines[h]).value)
      && (|s.emitted| == 2 <==> IsAcceptedHeader(lines[h + 1], ex))
      && (|s.emitted| == 2 ==>
            s.emitted[0] == TogetherLabel(ex.threadInfo(lines[h + 1]).value, lines[h + 1])
            && h + 1 < s.next)
  {
    var examined := lines[h + 1];
    var start := BodyStart(h, examined, ex);
    var end := BodyEnd(lines, start).value;
    ScanRecordSucceeds(lines, h, ex, end);
    var s := ScanRecord(lines, h, ex).value;
    var first := WithStackTrace(
      WithExplicitState(WithInlineState(ex.threadInfo(lines[h]).value, lines[h]), ex.threadState(examined)),
      StackText(lines, start, end));
    if IsAcceptedHeader(examined, ex) {
      assert s.emitted == [TogetherLabel(ex.threadInfo(examined).value, examined), first];
      assert start == BodyStart(h, examined, ex) >= h + 1;
    } else {
      assert s.emitted == [first];
    }
  }

  /** One scan: its records come from the headers `ScanOrigins` names, all
      before the line where the outer scan resumes. */
  lemma ScanFromHeaders(lines: seq<string>, h: nat, ex: Extractors)
    requires h < |lines| && IsAcceptedHeader(lines[h], ex)
    requires ScanRecord(lines, h, ex).Success?
    ensures var s, o := ScanRecord(lines, h, ex).value, ScanOrigins(lines, h, ex);
      |o| == |s.emitted| && FromHeaders(lines, ex, s.emitted, o, h)
      && InDumpOrder(o) && forall j :: 0 <= j < |o| ==> o[j] < s.next
  {
    ScanShape(lines, h, ex);
    ScanOriginsInOrder(lines, h, ex);
    var s := ScanRecord(lines, h, ex).value;
    if |s.emitted| == 2 {
      assert ScanOrigins(lines, h, ex) == [h + 1, h];
    } else {
      assert ScanOrigins(lines, h, ex) == [h];
    }
  }

  /** Joining the records of one scan to those after it keeps both facts. */
  lemma AppendOrigins(lines: seq<string>, ex: Extractors, r1: seq<ThreadInfo>, o1: seq<nat>,
                      r2: seq<ThreadInfo>, o2: seq<nat>, lo: nat, mid: nat)
    requires |o1| == |r1| && |o2| == |r2| && lo <= mid
    requires FromHeaders(lines, ex, r1, o1, lo) && InDumpOrder(o1)
    requires FromHeaders(lines, ex, r2, o2, mid) && InDumpOrder(o2)
    requires forall j :: 0 <= j < |o1| ==> o1[j] < mid
    ensures FromHeaders(lines, ex, r1 + r2, o1 + o2, lo) && InDumpOrder(o1 + o2)
  {
    var o, records := o1 + o2, r1 + r2;
    forall j | 0 <= j < |o|
      ensures lo <= o[j] < |lines| && IsAcceptedHeader(lines[o[j]], ex)
        && SameThread(records[j], ex.threadInfo(lines[o[j]]).value)
    {
      if j >= |o1| {
        assert o[j] == o2[j - |o1|] && records[j] == r2[j - |o1|];
      }
    }
    forall j1, j2 | 0 <= j1 < j2 < |o|
      ensures o[j1] < o[j2] || (j2 == j1 + 1 && o[j1] == o[j2] + 1)
    {
      if j2 >= |o1| {
        assert o[j2] == o2[j2 - |o1|];
        if j1 >= |o1| {
          assert o[j1] == o2[j1 - |o1|];
        }
      }
    }
  }

  /** Every record the reader produces is the thread of an accepted header
      line, one record per header, in dump order up to "together" pairs. */
  lemma {:induction false} RecordsFollowHeaders(lines: seq<string>, i: nat, ex: Extractors)
    requires ParseFrom(lines, i, ex).Success?
    ensures var records, o := ParseFrom(lines, i, ex).value, Origins(lines, i, ex);
      |o| == |records| && FromHeaders(lines, ex, records, o, i) && InDumpOrder(o)
    decreases |lines| - i
  {
    if i >= |lines| {
    } else if IsAcceptedHeader(lines[i], ex) {
      var s := ScanRecord(lines, i, ex).value;
      RecordsFollowHeaders(lines, s.next, ex);
      ScanFromHeaders(lines, i, ex);
      var o1, o2 := ScanOrigins(lines, i, ex), Origins(lines, s.next, ex);
      var r1, r2 := s.emitted, ParseFrom(lines, s.next, ex).value;
      assert ParseFrom(lines, i, ex).value == r1 + r2;
      assert Origins(lines, i, ex) == o1 + o2;
      AppendOrigins(lines, ex, r1, o1, r2, o2, i, s.next);
    } else {
      RecordsFollowHeaders(lines, i + 1, ex);
    }
  }

  // ---------------------------------------------------------------------
  // How many records

  /** Lines from `i` on that start with the header marker. */
  ghost function MarkerCount(lines: seq<string>, i: nat): nat
    decreases |lines| - i
  {
    if i >= |lines| then 0
    else (if IsHeaderStart(lines[i]) then 1 else 0) + MarkerCount(lines, i + 1)
  }

  /** Lines from `i` on that are accepted headers. */
  ghost function AcceptedCount(lines: seq<string>, i: nat, ex: Extractors): nat
    decreases |lines| - i
  {
    if i >= |lines| then 0
    else (if IsAcceptedHeader(lines[i], ex) then 1 else 0) + AcceptedCount(lines, i + 1, ex)
  }

  lemma {:induction false} AcceptedCountAntitone(lines: seq<string>, i: nat, j: nat, ex: Extractors)
    requires i <= j
    ensures AcceptedCount(lines, j, ex) <= AcceptedCount(lines, i, ex)
    decreases j - i
  {
    if i < j {
      AcceptedCountAntitone(lines, i + 1, j, ex);
    }
  }

  lemma {:induction false} AcceptedAtMostMarked(lines: seq<string>, i: nat, ex: Extractors)
    ensures AcceptedCount(lines, i, ex) <= MarkerCount(lines, i)
    decreases |lines| - i
  {
    if i < |lines| {
      AcceptedAtMostMarked(lines, i + 1, ex);
    }
  }

  /** A scan emits no more records than there are accepted headers among
      the lines it consumes. */
  lemma ScanCount(lines: seq<string>, h: nat, ex: Extractors)
    requires h < |lines| && IsAcceptedHeader(lines[h], ex)
    requires ScanRecord(lines, h, ex).Success?
    ensures var s := ScanRecord(lines, h, ex).value;
      |s.emitted| + AcceptedCount(lines, s.next, ex) <= AcceptedCount(lines, h, ex)
  {
    ScanFromHeaders(lines, h, ex);
    var s := ScanRecord(lines, h, ex).value;
    if |s.emitted| == 2 {
      assert ScanOrigins(lines, h, ex) == [h + 1, h];
      AcceptedCountAntitone(lines, h + 2, s.next, ex);
    } else {
      AcceptedCountAntitone(lines, h + 1, s.next, ex);
    }
  }

  /** The reader emits at most one record per accepted header, hence at
      most one per line that starts with the header marker. */
  lemma {:induction false} RecordCountBound(lines: seq<string>, i: nat, ex: Extractors)
    requires ParseFrom(lines, i, ex).Success?
    ensures |ParseFrom(lines, i, ex).value| <= AcceptedCount(lines, i, ex) <= MarkerCount(lines, i)
    decreases |lines| - i
  {
    AcceptedAtMostMarked(lines, i, ex);
    if i >= |lines| {
    } else if IsAcceptedHeader(lines[i], ex) {
      var s := ScanRecord(lines, i, ex).value;
      RecordCountBound(lines, s.next, ex);
      ScanCount(lines, i, ex);
    } else {
      RecordCountBound(lines, i + 1, ex);
    }
  }

  /** An input without an accepted header line, in particular one without
      a line that starts with the marker, yields no record and no error. */
  lemma {:induction false} NoHeaderNoRecords(lines: seq<string>, i: nat, ex: Extractors)
    requires forall k :: i <= k < |lines| ==> !IsAcceptedHeader(lines[k], ex)
    ensures ParseFrom(lines, i, ex) == Success([])
    decreases |lines| - i
  {
    if i < |lines| {
      NoHeaderNoRecords(lines, i + 1, ex);
    }
  }

  // ---------------------------------------------------------------------
  // The fields of one record

  /** The record the header at `h` itself yields: the last one its scan
      appends. */
  function FirstRecord(s: Scan): ThreadInfo
    requires |s.emitted| > 0
  {
    s.emitted[|s.emitted| - 1]
  }

  /** An explicit `Thread.State:` line after the header always decides the
      state; without one the inline "runnable" marker does, and otherwise
      the extracted state stays. The header's own fields are kept. */
  lemma StatePrecedence(lines: seq<string>, h: nat, ex: Extractors)
    requires h + 1 < |lines| && IsAcceptedHeader(lines[h], ex)
    requires ScanRecord(lines, h, ex).Success?
    ensures var first, info, explicit := FirstRecord(ScanRecord(lines, h, ex).value),
                                         ex.threadInfo(lines[h]).value, ex.threadState(lines[h + 1]);
      SameThread(first, info)
      && (explicit.Some? ==> first.state == StateName(explicit.value))
      && (explicit.None? && HasRunnableState(lines[h]) ==> first.state == "runnable")
      && (explicit.None? && !HasRunnableState(lines[h]) ==> first.state == info.state)
  {
    ScanFromHeaders(lines, h, ex);
  }

  /** The builder's text read front to back: the first line's trimmed text
      and a newline, then the rest in order. */
  lemma StackTextFront(lines: seq<string>, j: nat, e: nat)
    requires j < e <= |lines|
    ensures StackText(lines, j, e) == (Trim(lines[j]) + NewLine) + StackText(lines, j + 1, e)
  {
    StackTextFrontAt(lines, j, e, StackText(lines, j, e), StackText(lines, j + 1, e));
  }

  /** `StackTextFront` by induction on the last line appended, with the two
      texts passed in as `whole` and `rest`. */
  lemma {:induction false} StackTextFrontAt(lines: seq<string>, j: nat, e: nat, whole: string, rest: string)
    requires j < e <= |lines|
    requires whole == StackText(lines, j, e) && rest == StackText(lines, j + 1, e)
    ensures whole == (Trim(lines[j]) + NewLine) + rest
    decreases e - j
  {
    var first := Trim(lines[j]) + NewLine;
    if j + 1 == e {
      assert whole == StackText(lines, j, j) + first;
      assert StackText(lines, j, j) == "" && rest == "";
      assert "" + first == first == first + "";
    } else {
      var k := e - 1;
      var front, middle := StackText(lines, j, k), StackText(lines, j + 1, k);
      StackTextFrontAt(lines, j, k, front, middle);
      Regroup(whole, front, first, middle, Trim(lines[k]) + NewLine, rest);
    }
  }

  /** `(first + rest) + last` read as `first + (rest + last)`. */
  lemma Regroup(whole: string, front: string, first: string, rest: string, last: string, back: string)
    requires whole == front + last && front == first + rest && back == rest + last
    ensures whole == first + back
  {
    AppendAssoc(first, rest, last);
  }

  /** The builder is empty exactly when no line was appended. */
  lemma StackTextEmpty(lines: seq<string>, j: nat, e: nat)
    requires j <= e <= |lines|
    ensures StackText(lines, j, e) == "" <==> j == e
  {
    if j < e {
      assert |StackText(lines, j, e)| >= |NewLine| > 0;
    }
  }

  /** With an explicit state on the line after the header, the stack trace
      is the trimmed text of the consecutive lines from the one after the
      state line up to the first blank or header-start line, and it is set
      only when there is at least one such line. When the state line itself
      starts with the header marker the accumulation starts one line later
      still, so the line right after it is never looked at. A second record
      is appended exactly when the state line is also an accepted header.
      The outer scan resumes after the stopping line. */
  lemma StackTraceFromBody(lines: seq<string>, h: nat, ex: Extractors)
    requires h + 1 < |lines| && IsAcceptedHeader(lines[h], ex)
    requires ex.threadState(lines[h + 1]).Some?
    requires ScanRecord(lines, h, ex).Success?
    ensures var s := ScanRecord(lines, h, ex).value;
      var start := if IsHeaderStart(lines[h + 1]) then h + 3 else h + 2;
      var e, info := s.next - 1, ex.threadInfo(lines[h]).value;
      start <= e < |lines| && EndsBody(lines[e])
      && (forall k :: start <= k < e ==> !EndsBody(lines[k]))
      && (|s.emitted| == 2 <==> IsAcceptedHeader(lines[h + 1], ex))
      && FirstRecord(s).stackTrace == (if e > start then Some(StackText(lines, start, e)) else info.stackTrace)
  {
    var start := BodyStart(h, lines[h + 1], ex);
    assert start == if IsHeaderStart(lines[h + 1]) then h + 3 else h + 2;
    var e := BodyEnd(lines, start).value;
    ScanRecordSucceeds(lines, h, ex, e);
    StackTextEmpty(lines, start, e);
  }

  /** Without an explicit state line no stack trace is ever set: the cursor
      goes back to the header, or onto the "together" header, and the
      accumulation stops at once. Such a scan never fails. */
  lemma NoExplicitStateNoTrace(lines: seq<string>, h: nat, ex: Extractors)
    requires h + 1 < |lines| && IsAcceptedHeader(lines[h], ex)
    requires ex.threadState(lines[h + 1]).None?
    ensures ScanRecord(lines, h, ex).Success?
    ensures var s := ScanRecord(lines, h, ex).value;
      FirstRecord(s).stackTrace == ex.threadInfo(lines[h]).value.stackTrace
      && s.next == (if IsHeaderStart(lines[h + 1]) then h + 2 else h + 1)
  {
    var start := BodyStart(h, lines[h + 1], ex);
    assert EndsBody(lines[start]);
    assert BodyEnd(lines, start) == Success(start);
    ScanFromHeaders(lines, h, ex);
  }

  /** A second accepted header right after the first ("together" threads)
      yields a second record, appended before the first one, labelled from
      its own text only and without a stack trace. Otherwise the scan
      yields one record. */
  lemma TogetherPair(lines: seq<string>, h: nat, ex: Extractors)
    requires h + 1 < |lines| && IsAcceptedHeader(lines[h], ex)
    requires ScanRecord(lines, h, ex).Success?
    ensures var s, l := ScanRecord(lines, h, ex).value, lines[h + 1];
      (|s.emitted| == 2 <==> IsAcceptedHeader(l, ex))
      && (IsAcceptedHeader(l, ex) ==>
            var second, info2 := s.emitted[0], ex.threadInfo(l).value;
            SameThread(second, info2) && second.stackTrace == info2.stackTrace
            && second.state == (if HasRunnableState(l) then "runnable"
                                else if HasWaitingOnConditionState(l) then "waiting on condition"
                                else info2.state)
            && SameThread(s.emitted[1], ex.threadInfo(lines[h]).value))
  {
    ScanFromHeaders(lines, h, ex);
  }

  /** The line that stopped the accumulation is never examined again: the
      outer scan resumes on the line after it, even when it is a header. */
  lemma ResumeAfterStopLine(lines: seq<string>, h: nat, ex: Extractors)
    requires h < |lines| && IsAcceptedHeader(lines[h], ex)
    requires ScanRecord(lines, h, ex).Success?
    ensures var s := ScanRecord(lines, h, ex).value;
      h <= s.next - 1 && EndsBody(lines[s.next - 1])
      && ParseFrom(lines, h, ex) == Prepend(s.emitted, ParseFrom(lines, s.next, ex))
  {
    ScanFromHeaders(lines, h, ex);
  }

  /** The origins of the parse from an accepted header: those of its scan,
      then those of the parse from where the scan resumes. */
  lemma OriginsAfterScan(lines: seq<string>, h: nat, ex: Extractors)
    requires h < |lines| && IsAcceptedHeader(lines[h], ex)
    requires ScanRecord(lines, h, ex).Success?
    ensures Origins(lines, h, ex)
      == ScanOrigins(lines, h, ex) + Origins(lines, ScanRecord(lines, h, ex).value.next, ex)
  {
  }

  /** A stopping line beyond the examined line yields no record of the
      parse, even when it is an accepted header: no record of the parse
      from `h` has it as its header line. */
  lemma StopLineYieldsNoRecord(lines: seq<string>, h: nat, ex: Extractors)
    requires h < |lines| && IsAcceptedHeader(lines[h], ex)
    requires ScanRecord(lines, h, ex).Success? && ParseFrom(lines, h, ex).Success?
    requires ScanRecord(lines, h, ex).value.next - 1 > h + 1
    ensures var stop, o := ScanRecord(lines, h, ex).value.next - 1, Origins(lines, h, ex);
      forall j :: 0 <= j < |o| ==> o[j] != stop
  {
    var next := ScanRecord(lines, h, ex).value.next;
    ResumeAfterStopLine(lines, h, ex);
    assert ParseFrom(lines, next, ex).Success?;
    RecordsFollowHeaders(lines, next, ex);
    OriginsAfterScan(lines, h, ex);
    OutsideJoin(ScanOrigins(lines, h, ex), Origins(lines, next, ex), next - 1);
  }

  /** A value above every element of `o1` and below every element of `o2`
      is no element of `o1 + o2`. */
  lemma OutsideJoin(o1: seq<nat>, o2: seq<nat>, x: nat)
    requires forall j :: 0 <= j < |o1| ==> o1[j] < x
    requires forall j :: 0 <= j < |o2| ==> x < o2[j]
    ensures forall j :: 0 <= j < |o1 + o2| ==> (o1 + o2)[j] != x
  {
    forall j | 0 <= j < |o1 + o2|
      ensures (o1 + o2)[j] != x
    {
      if j >= |o1| {
        assert (o1 + o2)[j] == o2[j - |o1|];
      }
    }
  }

  // ---------------------------------------------------------------------
  // Running off the end

  /** A header on the last line: the `get` after it fails. */
  lemma HeaderOnLastLineFails(lines: seq<string>, ex: Extractors)
    requires |lines| > 0 && IsAcceptedHeader(lines[|lines| - 1], ex)
    ensures ParseFrom(lines, |lines| - 1, ex) == Failure(IndexOutOfBounds(|lines|))
  {
  }

  /** A stack trace that is not closed by a blank or header line before
      the end of the input, including an explicit state on the last line,
      makes the reader fail at the index just past the end. */
  lemma BodyRunsOffTheEnd(lines: seq<string>, h: nat, ex: Extractors)
    requires h + 1 < |lines| && IsAcceptedHeader(lines[h], ex)
    requires ex.threadState(lines[h + 1]).Some? && !IsHeaderStart(lines[h + 1])
    requires forall k :: h + 2 <= k < |lines| ==> !EndsBody(lines[k])
    ensures ScanRecord(lines, h, ex) == Failure(IndexOutOfBounds(|lines|))
  {
    assert BodyStart(h, lines[h + 1], ex) == h + 2;
  }

  /** A header line is never blank: it starts with the quote. */
  lemma HeaderIsNotBlank(line: string)
    requires IsHeaderStart(line)
    ensures IsNotBlank(line)
  {
    assert line[0] == '"' && !IsWhitespace(line[0]);
  }

  /** A dump whose last line is blank, carries no state, and in which no
      header line doubles as a state line, is read without running off
      the end. */
  lemma {:induction false} WellTerminatedDumpParses(lines: seq<string>, i: nat, ex: Extractors)
    requires |lines| > 0 && !IsNotBlank(lines[|lines| - 1])
    requires ex.threadState(lines[|lines| - 1]).None?
    requires forall k :: 0 <= k < |lines| && IsHeaderStart(lines[k]) ==> ex.threadState(lines[k]).None?
    ensures ParseFrom(lines, i, ex).Success?
    decreases |lines| - i
  {
    if i >= |lines| {
    } else if IsAcceptedHeader(lines[i], ex) {
      if i == |lines| - 1 {
        HeaderIsNotBlank(lines[i]);
      }
      var examined := lines[i + 1];
      var start := BodyStart(i, examined, ex);
      if ex.threadState(examined).Some? {
        assert start == i + 2 <= |lines| - 1;
      } else {
        assert EndsBody(lines[start]);
      }
      assert BodyEnd(lines, start).Success?;
      var s := ScanRecord(lines, i, ex).value;
      WellTerminatedDumpParses(lines, s.next, ex);
    } else {
      WellTerminatedDumpParses(lines, i + 1, ex);
    }
  }

  // ---------------------------------------------------------------------
  // A header right after a stack trace

  /** Extractors that accept every line starting with the quote, naming the
      thread after its header, and read "S" as an explicit RUNNABLE state. */
  function SampleExtractors(): Extractors {
    Extractors(
      line => if IsHeaderStart(line) then Some(ThreadInfo(line, "", "", false, "", None)) else None,
      line => if line == "S" then Some(Runnable) else None)
  }

  /** Two threads with no blank line between the first one's stack trace
      and the second header. */
  function SampleDump(): seq<string> {
    ["\"A\"", "S", "at f", "\"B\"", ""]
  }

  /** What the reader sees in each line of the sample dump. */
  lemma SampleLines()
    ensures var lines := SampleDump();
      IsHeaderStart(lines[0]) && !IsHeaderStart(lines[1]) && !IsHeaderStart(lines[2])
      && IsHeaderStart(lines[3]) && !HasRunnableState(lines[0])
      && IsNotBlank(lines[2]) && Trim(lines[2]) == "at f"
  {
    var lines := SampleDump();
    assert !IsHeaderStart(lines[1]) by { assert lines[1][..1][0] == 'S'; }
    assert !IsHeaderStart(lines[2]) by { assert lines[2][..1][0] == 'a'; }
    assert !IsWhitespace(lines[2][0]);
    assert !HasRunnableState(lines[0]) by {
      assert !Contains(lines[0][1..][1..], "runnable");
    }
  }

  /** The stack trace of the first thread is its one frame line. */
  lemma SampleBody()
    ensures BodyEnd(SampleDump(), 2) == Success(3)
    ensures StackText(SampleDump(), 2, 3) == "at f" + NewLine
  {
    SampleLines();
  }

  /** The first header's scan stops on the second header and resumes after
      it. */
  lemma SampleScan()
    ensures ScanRecord(SampleDump(), 0, SampleExtractors())
         == Success(Scan([ThreadInfo("\"A\"", "", "", false, "RUNNABLE", Some("at f" + NewLine))], 4))
  {
    var lines, ex := SampleDump(), SampleExtractors();
    SampleLines();
    SampleBody();
    assert BodyStart(0, lines[1], ex) == 2;
    var info := ThreadInfo(lines[0], "", "", false, "", None);
    assert ex.threadInfo(lines[0]) == Some(info);
    assert WithInlineState(info, lines[0]) == info;
    var a := info.(state := "RUNNABLE", stackTrace := Some("at f" + NewLine));
    assert WithStackTrace(WithExplicitState(info, Some(Runnable)), "at f" + NewLine) == a;
    ScanRecordSucceeds(lines, 0, ex, 3);
    assert TogetherRecords(lines[1], ex) == [];
    assert [] + [a] == [a];
  }

  /** The second header stopped the accumulation, is skipped by the outer
      increment, and its thread is lost. */
  lemma HeaderAfterBodyIsSkipped()
    ensures Parsed(SampleDump(), SampleExtractors())
         == Success([ThreadInfo("\"A\"", "", "", false, "RUNNABLE", Some("at f" + NewLine))])
  {
    var lines, ex := SampleDump(), SampleExtractors();
    var a := ThreadInfo("\"A\"", "", "", false, "RUNNABLE", Some("at f" + NewLine));
    SampleScan();
    assert IsAcceptedHeader(lines[0], ex);
    assert !IsAcceptedHeader(lines[4], ex);
    assert ParseFrom(lines, 4, ex) == Success([]);
    assert ParseFrom(lines, 0, ex) == Prepend([a], Success([]));
    assert [a] + [] == [a];
  }
}
