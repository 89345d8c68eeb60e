/**
 Fenced code blocks of Markdown text: the scanner that finds their spans and the binary
 search that asks whether an index lies inside one.
 */
module Fences {
  import opened Optional
  import opened JsText

  datatype FenceSpan = FenceSpan(start: nat, end: nat, openLine: Text, marker: Text, indent: Text)

  // A fence line: up to three spaces, a run of at least three equal marks, and a rest.
  datatype FenceLine = FenceLine(indent: Text, marker: Text)

  datatype Open = Open(start: nat, openLine: Text, line: FenceLine)

  // ---------------------------------------------------------------- lines

  // Where the line that starts at `offset` ends: at the next newline or at the end.
  function LineEnd(buffer: Text, offset: nat): (e: nat)
    requires offset <= |buffer|
    ensures offset <= e <= |buffer| && NEWLINE !in buffer[offset..e]
    ensures e < |buffer| ==> buffer[e] == NEWLINE
    decreases |buffer| - offset
  {
    if offset == |buffer| || buffer[offset] == NEWLINE then offset
    else
      var e := LineEnd(buffer, offset + 1);
      assert buffer[offset..e] == [buffer[offset]] + buffer[offset + 1..e];
      e
  }

  predicate LineStart(buffer: Text, p: nat) {
    p <= |buffer| && (p == 0 || buffer[p - 1] == NEWLINE)
  }

  function LineAt(buffer: Text, p: nat): Text
    requires p <= |buffer|
  {
    buffer[p..LineEnd(buffer, p)]
  }

  function RunLength(text: Text, u: CodeUnit): (n: nat)
    ensures n <= |text| && forall i :: 0 <= i < n ==> text[i] == u
    ensures n < |text| ==> text[n] != u
  {
    if text == [] || text[0] != u then 0 else 1 + RunLength(text[1..], u)
  }

  // The `.` of a regular expression does not match these.
  predicate IsLineTerminator(u: CodeUnit) {
    u == NEWLINE || u == CARRIAGE_RETURN || u == LINE_SEPARATOR || u == PARAGRAPH_SEPARATOR
  }

  // What stands behind so many spaces and so many equal marks is a fence if it is one line.
  function FenceOf(line: Text, indent: nat, marks: nat): Option<FenceLine>
    requires indent + marks <= |line|
  {
    if indent > 3 || marks < 3 || (exists i :: indent + marks <= i < |line| && IsLineTerminator(line[i])) then None
    else Some(FenceLine(line[..indent], line[indent..indent + marks]))
  }

  // `/^( {0,3})(`{3,}|~{3,})(.*)$/`
  function MatchFence(line: Text): Option<FenceLine> {
    var indent := RunLength(line, SPACE);
    if indent == |line| || (line[indent] != BACKTICK && line[indent] != TILDE) then None
    else FenceOf(line, indent, RunLength(line[indent..], line[indent]))
  }

  predicate Closes(open: FenceLine, line: FenceLine) {
    open.marker != [] && line.marker != [] && open.marker[0] == line.marker[0] && |line.marker| >= |open.marker|
  }

  // ---------------------------------------------------------------- specification

  function SpanOf(open: Open, end: nat): FenceSpan {
    FenceSpan(open.start, end, open.openLine, open.line.marker, open.line.indent)
  }

  // What the scanner knows behind the line at `offset`: the complete spans and the open block.
  function Advance(buffer: Text, offset: nat, found: seq<FenceSpan>, open: Option<Open>): (seq<FenceSpan>, Option<Open>)
    requires offset <= |buffer|
  {
    match MatchFence(LineAt(buffer, offset))
    case None => (found, open)
    case Some(fence) =>
      if open.None? then (found, Some(Open(offset, LineAt(buffer, offset), fence)))
      else if Closes(open.value.line, fence) then (found + [SpanOf(open.value, LineEnd(buffer, offset))], None)
      else (found, open)
  }

  function SpansFrom(buffer: Text, offset: nat, found: seq<FenceSpan>, open: Option<Open>): seq<FenceSpan>
    requires offset <= |buffer|
    decreases |buffer| - offset
  {
    var (found', open') := Advance(buffer, offset, found, open);
    var lineEnd := LineEnd(buffer, offset);
    if lineEnd < |buffer| then SpansFrom(buffer, lineEnd + 1, found', open') else Finish(buffer, found', open')
  }

  // A block still open at the end of the text ends there.
  function Finish(buffer: Text, found: seq<FenceSpan>, open: Option<Open>): seq<FenceSpan> {
    if open.Some? then found + [SpanOf(open.value, |buffer|)] else found
  }

  function Spans(buffer: Text): seq<FenceSpan> {
    SpansFrom(buffer, 0, [], None)
  }

  // ---------------------------------------------------------------- the source's loop

  method ParseFenceSpans(buffer: Text) returns (spans: seq<FenceSpan>)
    ensures spans == Spans(buffer)
  {
    hide RunLength;
    spans := [];
    var open: Option<Open> := None;
    var offset := 0;
    while offset <= |buffer|
      invariant 0 <= offset <= |buffer|
      invariant SpansFrom(buffer, offset, spans, open) == Spans(buffer)
      decreases |buffer| - offset
    {
      var lineEnd := LineEnd(buffer, offset);
      var line := buffer[offset..lineEnd];
      var fence := MatchFence(line);
      if fence.Some? {
        if open.None? {
          open := Some(Open(offset, line, fence.value));
        } else if Closes(open.value.line, fence.value) {
          spans := spans + [SpanOf(open.value, lineEnd)];
          open := None;
        }
      }
      if lineEnd == |buffer| {
        break;
      }
      offset := lineEnd + 1;
    }
    if open.Some? {
      spans := spans + [SpanOf(open.value, |buffer|)];
    }
  }

  // ---------------------------------------------------------------- what a fence line is

  predicate Repeats(text: Text, u: CodeUnit) {
    forall i :: 0 <= i < |text| ==> text[i] == u
  }

  // At most three spaces, at least three equal marks and no fourth behind them, and one line.
  ghost predicate ReadsAs(line: Text, fence: FenceLine) {
    && Repeats(fence.indent, SPACE) && |fence.indent| <= 3
    && |fence.marker| >= 3 && (Repeats(fence.marker, BACKTICK) || Repeats(fence.marker, TILDE))
    && fence.indent + fence.marker <= line
    && var rest := line[|fence.indent + fence.marker|..];
       && (rest != [] ==> rest[0] != fence.marker[0])
       && forall i :: 0 <= i < |rest| ==> !IsLineTerminator(rest[i])
  }

  lemma {:induction false} RunLengthIs(text: Text, u: CodeUnit, n: nat)
    requires n <= |text| && Repeats(text[..n], u) && (n < |text| ==> text[n] != u)
    ensures RunLength(text, u) == n
  {
    if n > 0 {
      assert text[0] == text[..n][0];
      forall i | 0 <= i < n - 1 ensures text[1..][i] == u { assert text[..n][i + 1] == u; }
      RunLengthIs(text[1..], u, n - 1);
    }
  }

  lemma MatchReads(line: Text)
    requires MatchFence(line).Some?
    ensures ReadsAs(line, MatchFence(line).value)
  {
    var indent := RunLength(line, SPACE);
    var marks := RunLength(line[indent..], line[indent]);
    hide RunLength;
    var fence := MatchFence(line).value;
    var rest := line[indent + marks..];
    assert fence.indent + fence.marker == line[..indent + marks];
    assert Repeats(fence.marker, line[indent]);
    forall i | 0 <= i < |rest| ensures !IsLineTerminator(rest[i]) { assert rest[i] == line[indent + marks + i]; }
    if rest != [] { assert rest[0] == line[indent..][marks]; }
  }

  // The parts of a line that reads as a fence line.
  lemma PartsOfLine(line: Text, indent: Text, marker: Text)
    requires indent + marker <= line
    ensures line[..|indent|] == indent && line[|indent|..|indent| + |marker|] == marker
    ensures line[|indent|..][..|marker|] == marker
    ensures forall i :: |indent + marker| <= i < |line| ==>
      && line[i] == line[|indent + marker|..][i - |indent + marker|]
      && line[i] == line[|indent|..][i - |indent|]
  {
    var both := indent + marker;
    assert line[..|indent|] == both[..|indent|];
    assert line[|indent|..][..|marker|] == line[|indent|..|indent| + |marker|] == both[|indent|..];
  }

  lemma ReadsMatch(line: Text, fence: FenceLine)
    requires ReadsAs(line, fence)
    ensures MatchFence(line) == Some(fence)
  {
    hide RunLength;
    var indent, marks := |fence.indent|, |fence.marker|;
    PartsOfLine(line, fence.indent, fence.marker);
    assert line[indent] == line[indent..][..marks][0] == fence.marker[0];
    assert indent + marks < |line| ==> line[indent + marks] == line[indent + marks..][0];
    RunLengthIs(line, SPACE, indent);
    RunLengthIs(line[indent..], fence.marker[0], marks);
  }

  /** A line is a fence line exactly if it reads as one, and it reads as at most one. */
  lemma MatchesIffReads(line: Text, fence: FenceLine)
    ensures MatchFence(line) == Some(fence) <==> ReadsAs(line, fence)
  {
    hide MatchFence, ReadsAs;
    if MatchFence(line).Some? { MatchReads(line); }
    if ReadsAs(line, fence) { ReadsMatch(line, fence); }
  }

  /** A fence line closes a block exactly if its marker starts with the marker that opened it. */
  lemma ClosesIffPrefix(first: Text, last: Text)
    requires MatchFence(first).Some? && MatchFence(last).Some?
    ensures var open, close := MatchFence(first).value, MatchFence(last).value;
            Closes(open, close) <==> open.marker <= close.marker
  {
    hide MatchFence;
    MatchReads(first);
    MatchReads(last);
  }

  // ---------------------------------------------------------------- what a span is

  ghost predicate Fences(buffer: Text, p: nat, fence: FenceLine)
    requires p <= |buffer|
  {
    LineStart(buffer, p) && MatchFence(LineAt(buffer, p)) == Some(fence)
  }

  ghost predicate IsFence(buffer: Text, p: nat)
    requires p <= |buffer|
  {
    LineStart(buffer, p) && MatchFence(LineAt(buffer, p)).Some?
  }

  // The line at p is a fence line that closes a block opened with `line`.
  ghost predicate ClosedAt(buffer: Text, line: FenceLine, p: nat)
    requires p <= |buffer|
  {
    && LineStart(buffer, p) && MatchFence(LineAt(buffer, p)).Some?
    && Closes(line, MatchFence(LineAt(buffer, p)).value)
  }

  function LineOf(span: FenceSpan): FenceLine {
    FenceLine(span.indent, span.marker)
  }

  ghost predicate StartsRight(buffer: Text, span: FenceSpan) {
    && span.start <= |buffer| && span.openLine == LineAt(buffer, span.start)
    && Fences(buffer, span.start, LineOf(span))
    && LineEnd(buffer, span.start) <= span.end <= |buffer|
  }

  // The block ends with the first line that closes it, or with the text.
  ghost predicate EndsRight(buffer: Text, span: FenceSpan) {
    && span.end <= |buffer|
    && (forall p: nat {:trigger ClosedAt(buffer, LineOf(span), p)} ::
          span.start < p <= |buffer| && LineEnd(buffer, p) < span.end ==> !ClosedAt(buffer, LineOf(span), p))
    && (span.end < |buffer| ==>
          exists p: nat {:trigger ClosedAt(buffer, LineOf(span), p)} ::
            span.start < p <= span.end && LineEnd(buffer, p) == span.end && ClosedAt(buffer, LineOf(span), p))
  }

  ghost predicate Right(buffer: Text, span: FenceSpan) {
    StartsRight(buffer, span) && EndsRight(buffer, span)
  }

  ghost predicate Ordered(spans: seq<FenceSpan>) {
    forall i, j :: 0 <= i < j < |spans| ==> spans[i].end < spans[j].start
  }

  ghost predicate Covered(spans: seq<FenceSpan>, p: nat) {
    exists i :: 0 <= i < |spans| && spans[i].start <= p <= spans[i].end
  }

  // An open block: nothing before `bound` has closed it.
  ghost predicate GoodOpen(buffer: Text, bound: nat, open: Open) {
    && open.start < bound && open.start <= |buffer| && LineEnd(buffer, open.start) < bound
    && open.openLine == LineAt(buffer, open.start) && Fences(buffer, open.start, open.line)
    && (forall p: nat :: open.start < p < bound && p <= |buffer| ==> !ClosedAt(buffer, open.line, p))
  }

  ghost predicate AllRight(buffer: Text, found: seq<FenceSpan>) {
    forall i :: 0 <= i < |found| ==> Right(buffer, found[i])
  }

  ghost predicate Behind(found: seq<FenceSpan>, from: nat) {
    Ordered(found) && forall i :: 0 <= i < |found| ==> found[i].end < from
  }

  // Every fence line before `bound` lies in a complete block, or at or after `from`.
  ghost predicate FencesCovered(buffer: Text, bound: nat, found: seq<FenceSpan>, from: nat) {
    forall p: nat :: p < bound && p <= |buffer| && IsFence(buffer, p) ==> Covered(found, p) || from <= p
  }

  // Where the complete blocks stop: at the open block or at `bound`.
  function From(bound: nat, open: Option<Open>): nat {
    if open.Some? then open.value.start else bound
  }

  // What the scanner has established about the text before `bound`.
  ghost predicate GoodScan(buffer: Text, bound: nat, found: seq<FenceSpan>, open: Option<Open>) {
    && AllRight(buffer, found)
    && Behind(found, From(bound, open))
    && FencesCovered(buffer, bound, found, From(bound, open))
    && (open.Some? ==> GoodOpen(buffer, bound, open.value))
  }

  lemma NoLineStartInside(buffer: Text, offset: nat, p: nat)
    requires offset <= |buffer| && offset < p <= LineEnd(buffer, offset)
    ensures !LineStart(buffer, p)
  {
    assert buffer[p - 1] == buffer[offset..LineEnd(buffer, offset)][p - 1 - offset];
  }

  lemma {:induction false} LineEndInside(buffer: Text, p: nat, q: nat)
    requires p <= |buffer| && p <= q <= LineEnd(buffer, p)
    ensures LineEnd(buffer, q) == LineEnd(buffer, p)
    decreases q - p
  {
    if p < q { LineEndInside(buffer, p + 1, q); }
  }

  lemma CoveredStill(found: seq<FenceSpan>, span: FenceSpan, p: nat)
    requires Covered(found, p) || span.start <= p <= span.end
    ensures Covered(found + [span], p)
  {
    if i :| 0 <= i < |found| && found[i].start <= p <= found[i].end {
      assert (found + [span])[i] == found[i];
    } else {
      assert (found + [span])[|found|] == span;
    }
  }

  // No line starts strictly between two bounds.
  ghost predicate OneLine(buffer: Text, offset: nat, lineEnd: nat) {
    forall p: nat :: offset < p <= lineEnd ==> !LineStart(buffer, p)
  }

  // The block that is complete at `end`: no line closes it earlier.
  lemma CompletedIsRight(buffer: Text, bound: nat, open: Open, end: nat)
    requires GoodOpen(buffer, bound, open) && bound <= end + 1 && end <= |buffer|
    requires forall p: nat {:trigger ClosedAt(buffer, open.line, p)} ::
      bound <= p < end && LineEnd(buffer, p) < end ==> !ClosedAt(buffer, open.line, p)
    requires end < |buffer| ==>
      exists p: nat {:trigger ClosedAt(buffer, open.line, p)} ::
        open.start < p <= end && LineEnd(buffer, p) == end && ClosedAt(buffer, open.line, p)
    ensures Right(buffer, SpanOf(open, end))
  {
    assert LineOf(SpanOf(open, end)) == open.line;
  }

  lemma AppendStaysRight(buffer: Text, found: seq<FenceSpan>, span: FenceSpan)
    requires AllRight(buffer, found) && Right(buffer, span)
    ensures AllRight(buffer, found + [span])
  {
  }

  lemma AppendStaysBehind(found: seq<FenceSpan>, span: FenceSpan, from: nat)
    requires Behind(found, span.start) && span.start <= span.end < from
    ensures Behind(found + [span], from)
  {
  }

  lemma CompletedCovers(buffer: Text, bound: nat, found: seq<FenceSpan>, span: FenceSpan)
    requires FencesCovered(buffer, bound, found, span.start) && span.start <= bound <= span.end + 1
    ensures FencesCovered(buffer, span.end + 1, found + [span], span.end + 1)
  {
    forall p: nat | p < span.end + 1 && p <= |buffer| && IsFence(buffer, p)
      ensures Covered(found + [span], p)
    {
      CoveredStill(found, span, p);
    }
  }

  lemma CompleteIsGood(buffer: Text, bound: nat, found: seq<FenceSpan>, open: Open, end: nat)
    requires GoodScan(buffer, bound, found, Some(open)) && bound <= end + 1
    requires Right(buffer, SpanOf(open, end))
    ensures GoodScan(buffer, end + 1, found + [SpanOf(open, end)], None)
  {
    var span := SpanOf(open, end);
    AppendStaysRight(buffer, found, span);
    AppendStaysBehind(found, span, end + 1);
    CompletedCovers(buffer, bound, found, span);
  }

  // One more line that starts no fence of its own in front of `from'`.
  lemma LineCovers(buffer: Text, offset: nat, lineEnd: nat, found: seq<FenceSpan>, from: nat, from': nat)
    requires offset <= lineEnd <= |buffer| && OneLine(buffer, offset, lineEnd)
    requires FencesCovered(buffer, offset, found, from)
    requires (from < offset ==> from' <= from) && (IsFence(buffer, offset) ==> from' <= offset)
    ensures FencesCovered(buffer, lineEnd + 1, found, from')
  {
    forall p: nat | p < lineEnd + 1 && p <= |buffer| && IsFence(buffer, p) ensures Covered(found, p) || from' <= p {
      assert p <= offset;
    }
  }

  lemma LineStaysOpen(buffer: Text, offset: nat, lineEnd: nat, open: Open)
    requires offset <= lineEnd <= |buffer| && OneLine(buffer, offset, lineEnd)
    requires GoodOpen(buffer, offset, open) && !ClosedAt(buffer, open.line, offset)
    ensures GoodOpen(buffer, lineEnd + 1, open)
  {
    hide MatchFence, LineEnd;
    forall p: nat | open.start < p < lineEnd + 1 && p <= |buffer| ensures !ClosedAt(buffer, open.line, p) {
      assert p > offset ==> !LineStart(buffer, p);
    }
  }

  // A line that neither opens nor closes a block.
  lemma PassIsGood(buffer: Text, offset: nat, lineEnd: nat, found: seq<FenceSpan>, open: Option<Open>)
    requires offset <= lineEnd <= |buffer| && OneLine(buffer, offset, lineEnd) && GoodScan(buffer, offset, found, open)
    requires if open.Some? then !ClosedAt(buffer, open.value.line, offset) else !IsFence(buffer, offset)
    ensures GoodScan(buffer, lineEnd + 1, found, open)
  {
    LineCovers(buffer, offset, lineEnd, found, From(offset, open), From(lineEnd + 1, open));
    if open.Some? { LineStaysOpen(buffer, offset, lineEnd, open.value); }
  }

  lemma OpenIsGood(buffer: Text, offset: nat, found: seq<FenceSpan>, open: Open)
    requires offset <= |buffer| && GoodScan(buffer, offset, found, None)
    requires OneLine(buffer, offset, LineEnd(buffer, offset))
    requires open.start == offset && open.openLine == LineAt(buffer, offset) && Fences(buffer, offset, open.line)
    ensures GoodScan(buffer, LineEnd(buffer, offset) + 1, found, Some(open))
  {
    LineCovers(buffer, offset, LineEnd(buffer, offset), found, offset, offset);
  }

  lemma AdvanceIsGood(buffer: Text, offset: nat, found: seq<FenceSpan>, open: Option<Open>)
    requires LineStart(buffer, offset) && GoodScan(buffer, offset, found, open)
    ensures var (found', open') := Advance(buffer, offset, found, open);
            GoodScan(buffer, LineEnd(buffer, offset) + 1, found', open')
  {
    var lineEnd := LineEnd(buffer, offset);
    forall p: nat | offset < p <= lineEnd ensures !LineStart(buffer, p) {
      NoLineStartInside(buffer, offset, p);
    }
    if open.None? {
      if IsFence(buffer, offset) {
        OpenIsGood(buffer, offset, found, Advance(buffer, offset, found, open).1.value);
      } else {
        PassIsGood(buffer, offset, lineEnd, found, open);
      }
    } else if ClosedAt(buffer, open.value.line, offset) {
      forall p: nat | offset <= p < lineEnd ensures LineEnd(buffer, p) == lineEnd {
        LineEndInside(buffer, offset, p);
      }
      CompletedIsRight(buffer, offset, open.value, lineEnd);
      CompleteIsGood(buffer, offset, found, open.value, lineEnd);
    } else {
      PassIsGood(buffer, offset, lineEnd, found, open);
    }
  }

  lemma FinishIsGood(buffer: Text, found: seq<FenceSpan>, open: Option<Open>)
    requires GoodScan(buffer, |buffer| + 1, found, open)
    ensures GoodScan(buffer, |buffer| + 1, Finish(buffer, found, open), None)
  {
    if open.Some? {
      CompletedIsRight(buffer, |buffer| + 1, open.value, |buffer|);
      CompleteIsGood(buffer, |buffer| + 1, found, open.value, |buffer|);
    }
  }

  // What every line keeps holds at the end of the text.
  lemma {:induction false} SpansFromKeep(buffer: Text, offset: nat, found: seq<FenceSpan>, open: Option<Open>,
      good: (nat, seq<FenceSpan>, Option<Open>) -> bool)
      returns (last: seq<FenceSpan>, left: Option<Open>)
    requires LineStart(buffer, offset) && good(offset, found, open)
    requires forall o: nat, f, op {:trigger Advance(buffer, o, f, op)} :: LineStart(buffer, o) && good(o, f, op) ==>
      good(LineEnd(buffer, o) + 1, Advance(buffer, o, f, op).0, Advance(buffer, o, f, op).1)
    ensures good(|buffer| + 1, last, left) && SpansFrom(buffer, offset, found, open) == Finish(buffer, last, left)
    decreases |buffer| - offset
  {
    hide MatchFence;
    var (found', open') := Advance(buffer, offset, found, open);
    var lineEnd := LineEnd(buffer, offset);
    last, left := found', open';
    if lineEnd < |buffer| {
      last, left := SpansFromKeep(buffer, lineEnd + 1, found', open', good);
    }
  }

  lemma NothingScannedIsGood(buffer: Text)
    ensures GoodScan(buffer, 0, [], None)
  {
  }

  lemma SpansAreGood(buffer: Text)
    ensures GoodScan(buffer, |buffer| + 1, Spans(buffer), None)
  {
    hide GoodScan, Advance, LineEnd;
    var good := (o: nat, f: seq<FenceSpan>, op: Option<Open>) => GoodScan(buffer, o, f, op);
    forall o: nat, f, op | LineStart(buffer, o) && good(o, f, op)
      ensures good(LineEnd(buffer, o) + 1, Advance(buffer, o, f, op).0, Advance(buffer, o, f, op).1)
    {
      AdvanceIsGood(buffer, o, f, op);
    }
    NothingScannedIsGood(buffer);
    var found, open := SpansFromKeep(buffer, 0, [], None, good);
    FinishIsGood(buffer, found, open);
  }

  /**
   The spans are the fenced blocks of the text, in order and apart: each starts at a fence
   line and ends with the first line that closes it or with the text, and every fence line
   lies in one of them.
   */
  lemma SpansAreTheBlocks(buffer: Text)
    ensures Ordered(Spans(buffer))
    ensures forall i :: 0 <= i < |Spans(buffer)| ==>
      StartsRight(buffer, Spans(buffer)[i]) && EndsRight(buffer, Spans(buffer)[i])
    ensures forall p: nat :: p <= |buffer| && IsFence(buffer, p) ==> Covered(Spans(buffer), p)
  {
    SpansAreGood(buffer);
  }

  // ---------------------------------------------------------------- lookup

  ghost predicate Inside(span: FenceSpan, index: nat) {
    span.start < index < span.end
  }

  // The first span that has the index strictly inside.
  function FenceAt(spans: seq<FenceSpan>, index: nat): (span: Option<FenceSpan>)
    ensures span.Some? ==> span.value in spans && Inside(span.value, index)
    ensures span.None? ==> forall i :: 0 <= i < |spans| ==> !Inside(spans[i], index)
  {
    if spans == [] then None
    else if spans[0].start < index < spans[0].end then Some(spans[0])
    else FenceAt(spans[1..], index)
  }

  lemma FenceAtIsUnique(spans: seq<FenceSpan>, index: nat, i: nat)
    requires Ordered(spans) && i < |spans| && Inside(spans[i], index)
    ensures FenceAt(spans, index) == Some(spans[i])
  {
    assert FenceAt(spans, index).Some?;
    var j :| 0 <= j < |spans| && spans[j] == FenceAt(spans, index).value;
    assert Inside(spans[j], index);
    assert i == j;
  }

  /** The binary search of `findFenceSpanAt` finds the one span that has the index inside. */
  method FindFenceSpanAt(spans: seq<FenceSpan>, index: nat) returns (span: Option<FenceSpan>)
    requires Ordered(spans) && forall i :: 0 <= i < |spans| ==> spans[i].start <= spans[i].end
    ensures span == FenceAt(spans, index)
  {
    var low, high := 0, |spans| - 1;
    while low <= high
      invariant 0 <= low <= high + 1 <= |spans|
      invariant forall i :: 0 <= i < |spans| && Inside(spans[i], index) ==> low <= i <= high
      decreases high - low + 1
    {
      var mid := (low + high) / 2;
      if index <= spans[mid].start {
        high := mid - 1;
      } else if index >= spans[mid].end {
        low := mid + 1;
      } else {
        FenceAtIsUnique(spans, index, mid);
        return Some(spans[mid]);
      }
    }
    span := None;
  }
}
