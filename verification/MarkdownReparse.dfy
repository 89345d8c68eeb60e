/**
 Reading a rendered chunk again: which fence the scanner has open in it, compared with the
 text it was cut from, and when its fences are all closed.
 */
module MarkdownReparse {
  import opened Optional
  import opened JsText
  import opened Fences
  import opened MarkdownPieces
  import opened MarkdownChunker
  import opened MarkdownTheorems

  // ---------------------------------------------------------------- the open fence

  // What a line does to the fence that is open before it.
  function Act(open: Option<FenceLine>, line: Text): Option<FenceLine> {
    match MatchFence(line)
    case None => open
    case Some(fence) => if open.None? then Some(fence) else if Closes(open.value, fence) then None else open
  }

  // The fence that is open behind the last line of a text.
  function OpenAfter(buffer: Text, open: Option<FenceLine>): Option<FenceLine>
    decreases |buffer|
  {
    var lineEnd := LineEnd(buffer, 0);
    var open' := Act(open, buffer[..lineEnd]);
    if lineEnd == |buffer| then open' else OpenAfter(buffer[lineEnd + 1..], open')
  }

  function LineOfOpen(open: Option<Open>): Option<FenceLine> {
    if open.Some? then Some(open.value.line) else None
  }

  function LineOfSpan(span: Option<FenceSpan>): Option<FenceLine> {
    if span.Some? then Some(LineOf(span.value)) else None
  }

  lemma OpenAfterLine(line: Text, open: Option<FenceLine>)
    requires NEWLINE !in line
    ensures OpenAfter(line, open) == Act(open, line)
  {
    hide MatchFence;
    forall i | 0 <= i < |line| ensures line[i] != NEWLINE { assert line[i] in line; }
    LineEndFrom(line, 0, |line|);
    assert line[..|line|] == line;
  }

  lemma NothingActs(open: Option<FenceLine>)
    ensures Act(open, []) == open && OpenAfter([], open) == open
  {
    NoFence([]);
    OpenAfterLine([], open);
  }

  // Reading on behind a newline.
  lemma {:induction false} OpenAfterConcat(a: Text, b: Text, open: Option<FenceLine>)
    ensures OpenAfter(a + [NEWLINE] + b, open) == OpenAfter(b, OpenAfter(a, open))
    decreases |a|
  {
    hide Act;
    var lineEnd, all := LineEnd(a, 0), a + [NEWLINE] + b;
    forall i | 0 <= i < lineEnd ensures all[i] != NEWLINE {
      assert all[i] == a[0..lineEnd][i];
    }
    LineEndFrom(all, 0, lineEnd);
    assert all[..lineEnd] == a[..lineEnd];
    if lineEnd == |a| {
      assert all[lineEnd + 1..] == b;
    } else {
      var rest := a[lineEnd + 1..];
      assert all[lineEnd + 1..] == rest + [NEWLINE] + b;
      OpenAfterConcat(rest, b, Act(open, a[..lineEnd]));
    }
  }

  // A newline at the end changes nothing.
  lemma OpenAfterNewline(a: Text, open: Option<FenceLine>)
    ensures OpenAfter(a + [NEWLINE], open) == OpenAfter(a, open)
  {
    assert a + [NEWLINE] + [] == a + [NEWLINE];
    OpenAfterConcat(a, [], open);
    NothingActs(OpenAfter(a, open));
  }

  // ---------------------------------------------------------------- the open fence and the spans

  lemma AdvanceActs(buffer: Text, offset: nat, found: seq<FenceSpan>, open: Option<Open>)
    requires offset <= |buffer|
    ensures LineOfOpen(Advance(buffer, offset, found, open).1) == Act(LineOfOpen(open), LineAt(buffer, offset))
  {
    hide MatchFence, LineEnd;
  }

  // The spans still to come behind the ones that were found.
  ghost predicate Extends(spans: seq<FenceSpan>, found: seq<FenceSpan>, open: Option<Open>, offset: nat, lineEnd: nat) {
    && |found| <= |spans| && spans[..|found|] == found
    && (open.Some? ==> |found| < |spans| && spans[|found|].end >= lineEnd
                       && spans[|found|] == SpanOf(open.value, spans[|found|].end))
    && (forall i :: |found| + (if open.Some? then 1 else 0) <= i < |spans| ==> spans[i].start >= offset)
  }

  lemma FinishExtends(buffer: Text, found: seq<FenceSpan>, open: Option<Open>, offset: nat)
    requires offset <= |buffer|
    ensures Extends(Finish(buffer, found, open), found, open, offset, |buffer|)
  {
    var spans := Finish(buffer, found, open);
    assert spans[..|found|] == found;
  }

  lemma AdvanceExtends(buffer: Text, offset: nat, found: seq<FenceSpan>, open: Option<Open>,
                       spans: seq<FenceSpan>, next: nat, nextEnd: nat)
    requires offset <= |buffer| && LineEnd(buffer, offset) <= nextEnd && offset <= next
    requires var (found', open') := Advance(buffer, offset, found, open); Extends(spans, found', open', next, nextEnd)
    ensures Extends(spans, found, open, offset, LineEnd(buffer, offset))
  {
    hide MatchFence, LineEnd;
    var (found', open') := Advance(buffer, offset, found, open);
    assert found == found'[..|found|];
    assert spans[..|found|] == spans[..|found'|][..|found|];
    if |found'| > |found| {
      assert found'[|found|] == spans[..|found'|][|found|] == spans[|found|];
    }
  }

  lemma {:induction false} SpansExtend(buffer: Text, offset: nat, found: seq<FenceSpan>, open: Option<Open>)
    requires offset <= |buffer|
    ensures Extends(SpansFrom(buffer, offset, found, open), found, open, offset, LineEnd(buffer, offset))
    decreases |buffer| - offset
  {
    hide Advance, Extends, Finish;
    var (found', open') := Advance(buffer, offset, found, open);
    var lineEnd, spans := LineEnd(buffer, offset), SpansFrom(buffer, offset, found, open);
    if lineEnd < |buffer| {
      SpansExtend(buffer, lineEnd + 1, found', open');
      AdvanceExtends(buffer, offset, found, open, spans, lineEnd + 1, LineEnd(buffer, lineEnd + 1));
    } else {
      FinishExtends(buffer, found', open', offset);
      AdvanceExtends(buffer, offset, found, open, spans, offset, |buffer|);
    }
  }

  // A position that only the open block can have inside.
  lemma OnlyOpenInside(
    spans: seq<FenceSpan>, found: seq<FenceSpan>, open: Option<Open>, offset: nat, lineEnd: nat, q: nat)
    requires Extends(spans, found, open, offset, lineEnd) && Ordered(spans) && q <= offset
    requires forall i :: 0 <= i < |found| ==> found[i].end <= q
    requires open.Some? ==> open.value.start < q < spans[|found|].end
    ensures LineOfSpan(FenceAt(spans, q)) == LineOfOpen(open)
  {
    hide FenceAt;
    assert forall i :: 0 <= i < |found| ==> spans[i] == spans[..|found|][i] == found[i];
    if open.Some? {
      FenceAtIsUnique(spans, q, |found|);
    } else {
      assert forall i :: 0 <= i < |spans| ==> !Inside(spans[i], q);
    }
  }

  ghost predicate AtLineBreak(buffer: Text, q: nat)
    requires q <= |buffer|
  {
    LineStart(buffer, q) || (q < |buffer| && buffer[q] == NEWLINE)
  }

  // What the scanner knows and will find, at the start of a line.
  ghost predicate Scanning(
    buffer: Text, offset: nat, found: seq<FenceSpan>, open: Option<Open>, spans: seq<FenceSpan>)
  {
    && LineStart(buffer, offset) && GoodScan(buffer, offset, found, open)
    && spans == SpansFrom(buffer, offset, found, open) && Ordered(spans)
  }

  lemma ScanOn(buffer: Text, offset: nat, found: seq<FenceSpan>, open: Option<Open>, spans: seq<FenceSpan>)
    requires Scanning(buffer, offset, found, open, spans) && LineEnd(buffer, offset) < |buffer|
    ensures var (found', open') := Advance(buffer, offset, found, open);
            && Scanning(buffer, LineEnd(buffer, offset) + 1, found', open', spans)
            && (open'.Some? ==> open'.value.start <= offset)
  {
    hide MatchFence, LineEnd;
    AdvanceIsGood(buffer, offset, found, open);
  }

  lemma FoundIsBehind(
    buffer: Text, offset: nat, found: seq<FenceSpan>, open: Option<Open>, spans: seq<FenceSpan>, i: nat)
    requires Scanning(buffer, offset, found, open, spans) && i < |found|
    ensures found[i].end < offset
  {
    hide LineEnd, MatchFence, SpansFrom, AllRight, FencesCovered;
  }

  lemma FenceAtLineStart(buffer: Text, offset: nat, found: seq<FenceSpan>, open: Option<Open>, spans: seq<FenceSpan>)
    requires Scanning(buffer, offset, found, open, spans) && offset < |buffer|
    ensures LineOfSpan(FenceAt(spans, offset)) == LineOfOpen(open)
  {
    hide GoodScan, SpansFrom, FenceAt;
    var lineEnd := LineEnd(buffer, offset);
    SpansExtend(buffer, offset, found, open);
    forall i | 0 <= i < |found| ensures found[i].end <= offset {
      FoundIsBehind(buffer, offset, found, open, spans, i);
    }
    if open.Some? {
      OpenIsBefore(buffer, offset, found, open.value, spans);
      if lineEnd == offset {
        EmptyLineAdvances(buffer, offset, found, open);
        SpansExtend(buffer, offset + 1, found, open);
        ScanOn(buffer, offset, found, open, spans);
        SpansStay(buffer, offset + 1, found, open, spans);
      }
    }
    OnlyOpenInside(spans, found, open, offset, lineEnd, offset);
  }

  lemma SpansStay(buffer: Text, offset: nat, found: seq<FenceSpan>, open: Option<Open>, spans: seq<FenceSpan>)
    requires Scanning(buffer, offset, found, open, spans)
    ensures spans == SpansFrom(buffer, offset, found, open)
  {
  }

  lemma OpenIsBefore(buffer: Text, offset: nat, found: seq<FenceSpan>, open: Open, spans: seq<FenceSpan>)
    requires Scanning(buffer, offset, found, Some(open), spans)
    ensures open.start < offset
  {
    hide LineEnd, MatchFence, SpansFrom, AllRight, FencesCovered, Behind;
  }

  lemma EmptyLineAdvances(buffer: Text, offset: nat, found: seq<FenceSpan>, open: Option<Open>)
    requires offset < |buffer| && LineEnd(buffer, offset) == offset
    ensures Advance(buffer, offset, found, open) == (found, open) && buffer[offset] == NEWLINE
  {
    hide LineEnd, MatchFence;
    assert LineAt(buffer, offset) == [];
    NoFence([]);
  }

  lemma FenceAtLineEnd(buffer: Text, offset: nat, found: seq<FenceSpan>, open: Option<Open>, spans: seq<FenceSpan>)
    requires Scanning(buffer, offset, found, open, spans) && offset < LineEnd(buffer, offset) < |buffer|
    ensures LineOfSpan(FenceAt(spans, LineEnd(buffer, offset))) == Act(LineOfOpen(open), LineAt(buffer, offset))
  {
    hide GoodScan, SpansFrom, FenceAt, LineEnd, MatchFence, Advance, Act;
    var lineEnd := LineEnd(buffer, offset);
    var (found', open') := Advance(buffer, offset, found, open);
    ScanOn(buffer, offset, found, open, spans);
    AdvanceActs(buffer, offset, found, open);
    SpansStay(buffer, lineEnd + 1, found', open', spans);
    SpansExtend(buffer, lineEnd + 1, found', open');
    forall i | 0 <= i < |found'| ensures found'[i].end <= lineEnd {
      FoundIsBehind(buffer, lineEnd + 1, found', open', spans, i);
    }
    OnlyOpenInside(spans, found', open', lineEnd + 1, LineEnd(buffer, lineEnd + 1), lineEnd);
  }

  lemma FenceInLine(buffer: Text, offset: nat, found: seq<FenceSpan>, open: Option<Open>, spans: seq<FenceSpan>, q: nat)
    requires Scanning(buffer, offset, found, open, spans) && q < |buffer|
    requires q == offset || q == LineEnd(buffer, offset)
    ensures LineOfSpan(FenceAt(spans, q)) == OpenAfter(buffer[offset..q], LineOfOpen(open))
  {
    hide Scanning, FenceAt, Act, Advance, OpenAfter, LineEnd, LineOfSpan, LineOfOpen;
    if q == offset {
      FenceAtLineStart(buffer, offset, found, open, spans);
      NothingActs(LineOfOpen(open));
      assert buffer[offset..q] == [];
    } else {
      OpenAfterOneLine(buffer, offset, q, LineOfOpen(open));
      FenceAtLineEnd(buffer, offset, found, open, spans);
    }
  }

  lemma ScanningStartsLine(
    buffer: Text, offset: nat, found: seq<FenceSpan>, open: Option<Open>, spans: seq<FenceSpan>)
    requires Scanning(buffer, offset, found, open, spans)
    ensures LineStart(buffer, offset)
  {
    hide GoodScan, SpansFrom, LineStart;
  }

  lemma {:induction false} FenceAtBreak(
      buffer: Text, offset: nat, found: seq<FenceSpan>, open: Option<Open>, spans: seq<FenceSpan>, q: nat)
    requires Scanning(buffer, offset, found, open, spans) && offset <= q < |buffer| && AtLineBreak(buffer, q)
    ensures LineOfSpan(FenceAt(spans, q)) == OpenAfter(buffer[offset..q], LineOfOpen(open))
    decreases |buffer| - offset
  {
    hide Scanning, FenceAt, Act, Advance, OpenAfter, LineEnd, AtLineBreak, LineStart, LineOfSpan, LineOfOpen;
    ScanningStartsLine(buffer, offset, found, open, spans);
    LineHasNoBreak(buffer, offset, q);
    var lineEnd := LineEnd(buffer, offset);
    if q == offset || q == lineEnd {
      FenceInLine(buffer, offset, found, open, spans, q);
    } else {
      var (found', open') := Advance(buffer, offset, found, open);
      ScanOn(buffer, offset, found, open, spans);
      FenceAtBreak(buffer, lineEnd + 1, found', open', spans, q);
      OpenAfterAdvance(buffer, offset, found, open, q);
    }
  }

  lemma OpenAfterAdvance(buffer: Text, offset: nat, found: seq<FenceSpan>, open: Option<Open>, q: nat)
    requires offset <= q <= |buffer| && LineEnd(buffer, offset) < q
    ensures OpenAfter(buffer[offset..q], LineOfOpen(open))
         == OpenAfter(buffer[LineEnd(buffer, offset) + 1..q], LineOfOpen(Advance(buffer, offset, found, open).1))
  {
    hide OpenAfter, Act, Advance, LineEnd, LineOfOpen;
    AdvanceActs(buffer, offset, found, open);
    OpenAfterOneLine(buffer, offset, q, LineOfOpen(open));
  }

  lemma OpenAfterOneLine(buffer: Text, offset: nat, q: nat, open: Option<FenceLine>)
    requires offset <= q <= |buffer| && LineEnd(buffer, offset) <= q
    ensures var lineEnd := LineEnd(buffer, offset);
            OpenAfter(buffer[offset..q], open) ==
              if q == lineEnd then Act(open, LineAt(buffer, offset))
              else OpenAfter(buffer[lineEnd + 1..q], Act(open, LineAt(buffer, offset)))
  {
    hide OpenAfter, Act, LineEnd;
    var lineEnd := LineEnd(buffer, offset);
    OpenAfterLine(buffer[offset..lineEnd], open);
    if q > lineEnd {
      assert buffer[offset..q] == buffer[offset..lineEnd] + [NEWLINE] + buffer[lineEnd + 1..q];
      OpenAfterConcat(buffer[offset..lineEnd], buffer[lineEnd + 1..q], open);
    }
  }

  lemma LineHasNoBreak(buffer: Text, offset: nat, q: nat)
    requires LineStart(buffer, offset) && offset <= q < |buffer| && AtLineBreak(buffer, q)
    ensures q != offset && q != LineEnd(buffer, offset) ==> LineEnd(buffer, offset) < q
  {
    var lineEnd := LineEnd(buffer, offset);
    forall r | offset <= r < lineEnd ensures buffer[r] != NEWLINE {
      assert buffer[r] == buffer[offset..lineEnd][r - offset];
    }
  }

  /** At the start and the end of a line, the spans know exactly the fence that a reader would have open. */
  lemma FenceAtIsTheOpenOne(text: Text, q: nat)
    requires q < |text| && AtLineBreak(text, q)
    ensures LineOfSpan(FenceAt(Spans(text), q)) == OpenAfter(text[..q], None)
  {
    hide FenceAt, OpenAfter;
    NothingScannedIsGood(text);
    SpansAreTheBlocks(text);
    assert Scanning(text, 0, [], None, Spans(text));
    FenceAtBreak(text, 0, [], None, Spans(text), q);
    assert text[0..q] == text[..q];
  }

  // ---------------------------------------------------------------- closed fences

  // The span ends with a line that closes it, and not just with the text.
  ghost predicate IsClosed(buffer: Text, span: FenceSpan) {
    exists p: nat {:trigger ClosedAt(buffer, LineOf(span), p)} ::
      span.start < p <= |buffer| && ClosedAt(buffer, LineOf(span), p) && LineEnd(buffer, p) == span.end
  }

  ghost predicate AllClosed(buffer: Text, spans: seq<FenceSpan>) {
    forall i :: 0 <= i < |spans| ==> IsClosed(buffer, spans[i])
  }

  // The state of the scanner in front of the line at `offset`, told by reading up to there.
  ghost predicate Tracked(buffer: Text, offset: nat, found: seq<FenceSpan>, open: Option<Open>) {
    && offset <= |buffer| + 1 && GoodScan(buffer, offset, found, open) && AllClosed(buffer, found)
    && LineOfOpen(open) == if offset == 0 then None else OpenAfter(buffer[..offset - 1], None)
  }

  lemma AdvanceStaysClosed(buffer: Text, offset: nat, found: seq<FenceSpan>, open: Option<Open>)
    requires LineStart(buffer, offset) && AllClosed(buffer, found) && (open.Some? ==> open.value.start < offset)
    ensures AllClosed(buffer, Advance(buffer, offset, found, open).0)
  {
    hide IsClosed, LineEnd, MatchFence;
    if open.Some? && ClosedAt(buffer, open.value.line, offset) {
      var span := SpanOf(open.value, LineEnd(buffer, offset));
      assert LineOf(span) == open.value.line;
      ClosedHere(buffer, span, offset);
    }
  }

  lemma ClosedHere(buffer: Text, span: FenceSpan, p: nat)
    requires span.start < p <= |buffer| && ClosedAt(buffer, LineOf(span), p) && LineEnd(buffer, p) == span.end
    ensures IsClosed(buffer, span)
  {
  }

  lemma AdvanceTracks(buffer: Text, offset: nat, found: seq<FenceSpan>, open: Option<Open>)
    requires LineStart(buffer, offset) && Tracked(buffer, offset, found, open)
    ensures var (found', open') := Advance(buffer, offset, found, open);
            Tracked(buffer, LineEnd(buffer, offset) + 1, found', open')
  {
    hide AllClosed, OpenAfter, Act, Advance, LineEnd, MatchFence;
    var lineEnd := LineEnd(buffer, offset);
    AdvanceIsGood(buffer, offset, found, open);
    AdvanceStaysClosed(buffer, offset, found, open);
    AdvanceActs(buffer, offset, found, open);
    OpenAfterLine(LineAt(buffer, offset), LineOfOpen(open));
    if offset == 0 {
      assert buffer[..lineEnd] == LineAt(buffer, 0);
    } else {
      assert buffer[..lineEnd] == buffer[..offset - 1] + [NEWLINE] + LineAt(buffer, offset);
      OpenAfterConcat(buffer[..offset - 1], LineAt(buffer, offset), None);
    }
  }

  /** Reading a text leaves no fence open exactly if each of its spans ends with a line that closes it. */
  lemma NoneOpenIff(buffer: Text)
    ensures OpenAfter(buffer, None) == None <==> AllClosed(buffer, Spans(buffer))
  {
    hide Tracked, Advance, LineEnd, AllClosed, OpenAfter;
    var good := (o: nat, f: seq<FenceSpan>, op: Option<Open>) => Tracked(buffer, o, f, op);
    forall o: nat, f, op | LineStart(buffer, o) && good(o, f, op)
      ensures good(LineEnd(buffer, o) + 1, Advance(buffer, o, f, op).0, Advance(buffer, o, f, op).1)
    {
      AdvanceTracks(buffer, o, f, op);
    }
    NothingIsTracked(buffer);
    var found, open := SpansFromKeep(buffer, 0, [], None, good);
    TrackedToTheEnd(buffer, found, open);
  }

  lemma NothingIsTracked(buffer: Text)
    ensures Tracked(buffer, 0, [], None)
  {
    hide GoodScan;
    NothingScannedIsGood(buffer);
  }

  lemma TrackedToTheEnd(buffer: Text, found: seq<FenceSpan>, open: Option<Open>)
    requires Tracked(buffer, |buffer| + 1, found, open)
    ensures OpenAfter(buffer, None) == None <==> AllClosed(buffer, Finish(buffer, found, open))
  {
    hide OpenAfter, LineEnd, MatchFence;
    assert buffer[..|buffer|] == buffer;
    if open.Some? {
      var span := SpanOf(open.value, |buffer|);
      assert LineOf(span) == open.value.line && Finish(buffer, found, open)[|found|] == span;
      assert !IsClosed(buffer, span);
    }
  }

  // ---------------------------------------------------------------- rendered chunks

  lemma {:induction false} RunLengthOfPrefix(text: Text, u: CodeUnit, n: nat)
    requires n <= |text|
    ensures RunLength(text[..n], u) == if RunLength(text, u) < n then RunLength(text, u) else n
  {
    if n > 0 && text[0] == u {
      assert text[..n][1..] == text[1..][..n - 1];
      RunLengthOfPrefix(text[1..], u, n - 1);
    }
  }

  // Indent and marker alone are a fence line with that indent and marker.
  lemma CloseLineIsFence(line: Text, fence: FenceLine)
    requires MatchFence(line) == Some(fence) && NEWLINE !in line
    ensures MatchFence(fence.indent + fence.marker) == Some(fence) && NEWLINE !in fence.indent + fence.marker
    ensures fence.marker != []
  {
    hide IsLineTerminator;
    var indent := RunLength(line, SPACE);
    var marks := RunLength(line[indent..], line[indent]);
    var close := line[..indent + marks];
    assert fence == FenceLine(line[..indent], line[indent..indent + marks]);
    assert fence.indent + fence.marker == close;
    PrefixIsFence(line, indent, marks);
  }

  lemma PrefixIsFence(line: Text, indent: nat, marks: nat)
    requires indent == RunLength(line, SPACE) && indent <= 3 && indent < |line|
    requires marks == RunLength(line[indent..], line[indent]) && marks >= 3
    requires line[indent] == BACKTICK || line[indent] == TILDE
    ensures MatchFence(line[..indent + marks]) == Some(FenceLine(line[..indent], line[indent..indent + marks]))
  {
    hide RunLength, MatchFence;
    var close, mark, rest := line[..indent + marks], line[indent], line[indent..];
    SliceParts(line, indent, marks);
    RunLengthOfPrefix(line, SPACE, indent + marks);
    RunLengthOfPrefix(rest, mark, marks);
    MarksAreFence(close, indent, marks);
  }

  lemma SliceParts(line: Text, indent: nat, marks: nat)
    requires indent + marks <= |line|
    ensures var close := line[..indent + marks];
            && close[indent..] == line[indent..][..marks]
            && close[..indent] == line[..indent] && close[indent..] == line[indent..indent + marks]
  {
  }

  // A line that is nothing but indentation and marks.
  lemma MarksAreFence(line: Text, indent: nat, marks: nat)
    requires indent <= 3 <= marks && |line| == indent + marks && RunLength(line, SPACE) == indent
    requires RunLength(line[indent..], line[indent]) == marks && (line[indent] == BACKTICK || line[indent] == TILDE)
    ensures MatchFence(line) == Some(FenceLine(line[..indent], line[indent..]))
  {
    hide RunLength;
    OnlyMarks(line, indent, marks);
    hide FenceOf;
  }

  lemma OnlyMarks(line: Text, indent: nat, marks: nat)
    requires indent <= 3 <= marks && |line| == indent + marks
    ensures FenceOf(line, indent, marks) == Some(FenceLine(line[..indent], line[indent..]))
  {
    assert line[indent..indent + marks] == line[indent..];
  }

  // A span whose opening and closing lines read as its fence.
  ghost predicate Readable(span: FenceSpan) {
    && NEWLINE !in span.openLine && MatchFence(span.openLine) == Some(LineOf(span))
    && NEWLINE !in CloseLine(span) && MatchFence(CloseLine(span)) == Some(LineOf(span)) && span.marker != []
  }

  lemma SpansAreReadable(text: Text, i: nat)
    requires i < |Spans(text)|
    ensures Readable(Spans(text)[i])
  {
    hide Spans, EndsRight, MatchFence, LineEnd;
    var span := Spans(text)[i];
    SpansAreTheBlocks(text);
    assert StartsRight(text, span);
    CloseLineIsFence(span.openLine, LineOf(span));
  }

  lemma FencesAreReadable(text: Text, q: nat)
    ensures FenceAt(Spans(text), q).Some? ==> Readable(FenceAt(Spans(text), q).value)
  {
    hide Spans, Readable, FenceAt;
    var span := FenceAt(Spans(text), q);
    if span.Some? {
      var i :| 0 <= i < |Spans(text)| && Spans(text)[i] == span.value;
      SpansAreReadable(text, i);
    }
  }

  // What is open in the chunk behind its slice of the text, in front of the closing line.
  function OpenInside(text: Text, p: Piece): Option<FenceLine>
    requires p.start <= p.end <= |text|
  {
    OpenAfter(Raw(text, p), LineOfSpan(p.reopen))
  }

  lemma ClosingActs(open: Option<FenceLine>, span: FenceSpan)
    requires Readable(span)
    ensures Act(open, CloseLine(span)) == None <==> open.Some? && Closes(open.value, LineOf(span))
  {
  }

  lemma PrefixOpens(reopen: Option<FenceSpan>, raw: Text)
    requires reopen.Some? ==> Readable(reopen.value)
    ensures OpenAfter(ReopenPrefix(reopen) + raw, None) == OpenAfter(raw, LineOfSpan(reopen))
  {
    hide OpenAfter, MatchFence;
    if reopen.Some? {
      OpenAfterConcat(reopen.value.openLine, raw, None);
      OpenAfterLine(reopen.value.openLine, None);
    } else {
      assert [] + raw == raw;
    }
  }

  lemma SuffixActs(raw: Text, span: FenceSpan)
    requires Readable(span) && raw != []
    ensures OpenAfter(Closed(raw, Some(span)), None) == Act(OpenAfter(raw, None), CloseLine(span))
  {
    hide OpenAfter, MatchFence, CloseLine;
    var line, last := CloseLine(span), |raw| - 1;
    if raw[last] == NEWLINE {
      assert raw == raw[..last] + [NEWLINE];
      OpenAfterConcat(raw[..last], line, None);
      OpenAfterNewline(raw[..last], None);
    } else {
      OpenAfterConcat(raw, line, None);
    }
    OpenAfterLine(line, OpenAfter(raw, None));
  }

  /**
   Parsed again by itself, a chunk has all its fences closed exactly if its slice leaves open a
   fence that its closing line closes, or none if it has no closing line.
   */
  lemma ChunkIsClosedIff(text: Text, limit: int, i: nat)
    requires 0 < limit < |text| && i < |PiecesOf(text, limit)|
    ensures Slices(text, PiecesOf(text, limit)) && i < |ChunkMarkdown(text, limit)|
    ensures var p, chunk := PiecesOf(text, limit)[i], ChunkMarkdown(text, limit)[i];
            AllClosed(chunk, Spans(chunk)) <==>
              var open := OpenInside(text, p);
              if p.close.Some? then open.Some? && Closes(open.value, LineOf(p.close.value)) else open == None
  {
    hide PiecesOf, Spans, ChunkMarkdown, FenceAt, Readable, AllClosed, OpenAfter;
    hide ReopenPrefix, CloseLine, Act, PieceEnd, NextStart;
    ChunksAreRenderings(text, limit, i);
    RenderedChunk(text, limit, i);
    var p, chunk := PiecesOf(text, limit)[i], ChunkMarkdown(text, limit)[i];
    NoneOpenIff(chunk);
    FencesAreReadable(text, p.end);
    if i > 0 { FencesAreReadable(text, PiecesOf(text, limit)[i - 1].end); }
    PrefixOpens(p.reopen, Raw(text, p));
    if p.close.Some? {
      SuffixActs(ReopenPrefix(p.reopen) + Raw(text, p), p.close.value);
      ClosingActs(OpenInside(text, p), p.close.value);
    }
  }

  // ---------------------------------------------------------------- a chunk and its text

  // At q the chunk, parsed by itself, has the fence open that the text has open there.
  ghost predicate SameOpen(text: Text, p: Piece, q: nat)
    requires p.start <= q <= |text|
  {
    OpenAfter(text[p.start..q], LineOfSpan(p.reopen)) == OpenAfter(text[..q], None)
  }

  lemma SameOpenStays(text: Text, p: Piece, q: nat, r: nat)
    requires p.start <= q < r <= |text| && text[q] == NEWLINE && SameOpen(text, p, q)
    ensures SameOpen(text, p, r)
  {
    hide OpenAfter;
    assert text[p.start..r] == text[p.start..q] + [NEWLINE] + text[q + 1..r];
    assert text[..r] == text[..q] + [NEWLINE] + text[q + 1..r];
    OpenAfterConcat(text[p.start..q], text[q + 1..r], LineOfSpan(p.reopen));
    OpenAfterConcat(text[..q], text[q + 1..r], None);
  }

  // The end of the chunk's first line, or its break if that comes first.
  function FirstEnd(text: Text, p: Piece): (q: nat)
    requires p.start <= p.end <= |text|
    ensures p.start <= q <= p.end && (q < p.end ==> text[q] == NEWLINE)
  {
    if LineEnd(text, p.start) < p.end then LineEnd(text, p.start) else p.end
  }

  /**
   From the end of its first line on, a chunk parsed by itself has the same fences open as the
   text exactly if it has at that one place.
   */
  lemma ReadsTheSameIff(text: Text, p: Piece)
    requires p.start <= p.end <= |text|
    ensures var first := FirstEnd(text, p);
            (forall q :: first <= q <= p.end ==> SameOpen(text, p, q)) <==> SameOpen(text, p, first)
  {
    hide SameOpen;
    var first := FirstEnd(text, p);
    if SameOpen(text, p, first) {
      forall q | first <= q <= p.end ensures SameOpen(text, p, q) {
        if first < q { SameOpenStays(text, p, first, q); }
      }
    }
  }

  // A piece that starts a line reopens the fence that is open there.
  lemma LineStartReopens(text: Text, limit: int, i: nat)
    requires 0 < limit < |text| && i < |PiecesOf(text, limit)| && LineStart(text, PiecesOf(text, limit)[i].start)
    ensures PiecesOf(text, limit)[i].start < |text|
    ensures PiecesOf(text, limit)[i].reopen == FenceAt(Spans(text), PiecesOf(text, limit)[i].start)
  {
    hide PiecesOf, Spans, PieceEnd, NextStart, ContentLimit, FenceAt, Usable, Reopens;
    var pieces, spans := PiecesOf(text, limit), Spans(text);
    NthPiece(text, limit, i);
    if i > 0 {
      NthPiece(text, limit, i - 1);
      NextReopens(text, spans, pieces[i - 1].end);
      if pieces[i].start > 0 {
        FenceMeetsLine(text, spans, pieces[i].start, pieces[i].reopen, pieces[i - 1].end);
      }
    }
  }

  lemma FenceMeetsLine(text: Text, spans: seq<FenceSpan>, start: nat, reopen: Option<FenceSpan>, end: nat)
    requires spans == Spans(text) && Usable(text, spans) && start < |text| && start > 0 && text[start - 1] == NEWLINE
    requires Reopens(spans, start, reopen) && reopen == FenceAt(spans, end)
    ensures reopen == FenceAt(spans, start)
  {
    hide Spans, FenceAt;
    var found := FenceAt(spans, start);
    if found.Some? {
      var k :| 0 <= k < |spans| && spans[k] == found.value;
      OpeningUnits(text, spans, k);
    }
    if reopen.Some? {
      var k :| 0 <= k < |spans| && spans[k] == reopen.value;
      if start == spans[k].end {
        SpanEndsLine(text, k);
      }
      FenceAtIsUnique(spans, start, k);
    }
  }

  // The last unit of a block that ends before the text is no newline.
  lemma SpanEndsLine(text: Text, k: nat)
    requires k < |Spans(text)| && Spans(text)[k].end < |text|
    ensures Spans(text)[k].end > 0 && text[Spans(text)[k].end - 1] != NEWLINE
  {
    hide Spans, MatchFence;
    var span := Spans(text)[k];
    SpansAreTheBlocks(text);
    assert EndsRight(text, span);
    var p: nat :| span.start < p <= span.end && LineEnd(text, p) == span.end && ClosedAt(text, LineOf(span), p);
    FenceLinesAreLong(LineAt(text, p));
    assert text[span.end - 1] == LineAt(text, p)[span.end - 1 - p];
    assert text[span.end - 1] in LineAt(text, p);
  }

  /** A chunk that starts a line has, parsed by itself, the same fences open as the text all the way. */
  lemma LineStartReadsTheSame(text: Text, limit: int, i: nat, q: nat)
    requires 0 < limit < |text| && i < |PiecesOf(text, limit)| && LineStart(text, PiecesOf(text, limit)[i].start)
    requires PiecesOf(text, limit)[i].start <= q <= |text|
    ensures SameOpen(text, PiecesOf(text, limit)[i], q)
  {
    hide PiecesOf, OpenAfter, FenceAt, Spans;
    var p := PiecesOf(text, limit)[i];
    LineStartReopens(text, limit, i);
    FenceAtIsTheOpenOne(text, p.start);
    if p.start == 0 {
      assert text[0..q] == text[..q] && text[..0] == [];
      NothingActs(None);
    } else {
      var before := text[..p.start - 1];
      assert text[..p.start] == before + [NEWLINE];
      OpenAfterNewline(before, None);
      assert text[..q] == before + [NEWLINE] + text[p.start..q];
      OpenAfterConcat(before, text[p.start..q], None);
    }
  }

  /**
   A chunk that starts a line has all its fences closed, parsed by itself, exactly if its closing
   line closes what is open where the text is broken off; and so whenever it is broken off at the
   start or the end of a line. What closes is then the very fence that the chunk was broken in.
   */
  lemma LineChunkIsClosedIff(text: Text, limit: int, i: nat)
    requires 0 < limit < |text| && i < |PiecesOf(text, limit)| && LineStart(text, PiecesOf(text, limit)[i].start)
    ensures Slices(text, PiecesOf(text, limit)) && i < |ChunkMarkdown(text, limit)|
    ensures var p, chunk := PiecesOf(text, limit)[i], ChunkMarkdown(text, limit)[i];
            var open := OpenAfter(text[..p.end], None);
            && (AllClosed(chunk, Spans(chunk)) <==>
                  if p.close.Some? then open.Some? && Closes(open.value, LineOf(p.close.value)) else open == None)
            && (p.end < |text| && AtLineBreak(text, p.end) ==>
                  open == LineOfSpan(p.close) && AllClosed(chunk, Spans(chunk)))
  {
    hide PiecesOf, OpenAfter, FenceAt, Spans, ChunkMarkdown, AllClosed, Readable;
    var p := PiecesOf(text, limit)[i];
    ChunkIsClosedIff(text, limit, i);
    LineStartReadsTheSame(text, limit, i, p.end);
    RenderedChunk(text, limit, i);
    FencesAreReadable(text, p.end);
    if p.end < |text| && AtLineBreak(text, p.end) {
      FenceAtIsTheOpenOne(text, p.end);
      if p.close.Some? { ClosesItself(p.close.value); }
    }
  }

  lemma ClosesItself(span: FenceSpan)
    requires Readable(span)
    ensures Closes(LineOf(span), LineOf(span))
  {
  }

  // The letters a to d, three backticks and the letter e, all on one line.
  const MARKS_TEXT: Text := [97, 98, 99, 100, 96, 96, 96, 101]

  lemma MarksPieces(text: Text, spans: seq<FenceSpan>)
    requires |text| == 8 && spans == [] && Usable(text, spans) && forall u <- text :: !IsSpace(u)
    ensures Pieces(text, 4, spans, 0, None) == [Piece(0, 4, 4, None, None), Piece(4, 8, 8, None, None)]
  {
    hide ScanTo;
    assert ContentLimit(4, None) == 4;
    SoftBreaksAreSafe(text, spans, 0, 4);
    NewlinesAreSpace();
    assert PieceEnd(text, spans, 0, 4) == 4 && !IsSpace(text[4]);
    hide PieceEnd;
    assert NextStart(text, 4, None) == 4;
    assert Pieces(text, 4, spans, 4, None) == [Piece(4, 8, 8, None, None)];
  }

  lemma MarksFence(line: Text)
    requires line == [96, 96, 96, 101]
    ensures MatchFence(line) == Some(FenceLine([], [96, 96, 96]))
  {
    assert line[0..] == line && RunLength(line, SPACE) == 0;
    assert line[1..] == [96, 96, 101] && [96, 96, 101][1..] == [96, 101] && [96, 101][1..] == [101 as CodeUnit];
    assert RunLength([101], BACKTICK) == 0;
    assert RunLength([96, 101], BACKTICK) == 1;
    assert RunLength([96, 96, 101], BACKTICK) == 2;
    assert RunLength(line, BACKTICK) == 3;
    assert line[..0] == [] && line[0..3] == [96, 96, 96];
  }

  lemma MarksSpans(text: Text)
    requires text == MARKS_TEXT
    ensures Spans(text) == []
  {
    hide MatchFence, LineEnd;
    LineEndFrom(text, 0, 8);
    assert LineAt(text, 0) == text;
    NoFence(text);
    assert Advance(text, 0, [], None) == ([], None);
  }

  /** A break in front of backticks in the middle of a line makes them open a fence that the text does not have. */
  lemma MidLineBreakCanOpenFence(text: Text)
    requires text == MARKS_TEXT
    ensures Spans(text) == [] && ChunkMarkdown(text, 4) == [text[..4], text[4..]]
    ensures !AllClosed(text[4..], Spans(text[4..]))
  {
    hide Spans, Pieces, ChunkMarkdown, AllClosed, MatchFence, OpenAfter;
    MarksSpans(text);
    SpansAreUsable(text);
    assert forall u <- text :: !IsSpace(u);
    MarksPieces(text, Spans(text));
    var pieces, line := PiecesOf(text, 4), text[4..];
    hide IsSpace;
    assert pieces == [Piece(0, 4, 4, None, None), Piece(4, 8, 8, None, None)];
    ChunksAreRenderings(text, 4, 0);
    ChunksAreRenderings(text, 4, 1);
    assert [] + text[0..4] == text[..4] && [] + text[4..8] == line;
    assert ChunkMarkdown(text, 4) == [text[..4], line];
    assert line == [96, 96, 96, 101];
    MarksFence(line);
    OpenAfterLine(line, None);
    NoneOpenIff(line);
  }
}
