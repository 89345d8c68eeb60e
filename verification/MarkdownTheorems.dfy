/**
 What the chunker promises about every text and limit: nothing but white space is lost, no
 fence is left open or forgotten, and chunks are too long only where a fence leaves no room.
 */
module MarkdownTheorems {
  import opened Optional
  import opened JsText
  import opened Fences
  import opened MarkdownPieces
  import opened MarkdownChunker

  // The pieces of a text that needs cutting.
  ghost function PiecesOf(text: Text, limit: int): seq<Piece> {
    SpansAreUsable(text);
    Pieces(text, limit, Spans(text), 0, None)
  }

  // ---------------------------------------------------------------- one piece, all pieces

  ghost predicate AllSpace(text: Text, from: nat, to: nat)
    requires from <= to <= |text|
  {
    forall j :: from <= j < to ==> IsSpace(text[j])
  }

  ghost predicate GoodPiece(text: Text, limit: int, spans: seq<FenceSpan>, p: Piece)
    requires Usable(text, spans)
  {
    var contentLimit := ContentLimit(limit, p.reopen);
    && p.start < p.end <= p.next <= |text| && AllSpace(text, p.end, p.next)
    && p.close == FenceAt(spans, p.end) && p.next == NextStart(text, p.end, p.close)
    && p.end == if |text| - p.start <= contentLimit then |text| else PieceEnd(text, spans, p.start, contentLimit)
  }

  ghost function Good(text: Text, limit: int, spans: seq<FenceSpan>): Piece -> bool {
    (p: Piece) => Usable(text, spans) && GoodPiece(text, limit, spans, p)
  }

  // Good pieces follow one another from `start` to `end`.
  ghost predicate Chain(good: Piece -> bool, start: nat, end: nat, reopen: Option<FenceSpan>, pieces: seq<Piece>)
    decreases |pieces|
  {
    if pieces == [] then start == end
    else
      && good(pieces[0]) && pieces[0].start == start && pieces[0].reopen == reopen
      && Chain(good, pieces[0].next, end, pieces[0].close, pieces[1..])
  }

  lemma {:induction false} NthOfChain(
    good: Piece -> bool, start: nat, end: nat, reopen: Option<FenceSpan>, pieces: seq<Piece>, i: nat)
    requires Chain(good, start, end, reopen, pieces) && i < |pieces|
    ensures good(pieces[i])
    ensures if i == 0 then pieces[0].start == start && pieces[0].reopen == reopen
            else pieces[i].start == pieces[i - 1].next && pieces[i].reopen == pieces[i - 1].close
    decreases |pieces|
  {
    if i > 0 {
      NthOfChain(good, pieces[0].next, end, pieces[0].close, pieces[1..], i - 1);
    }
  }

  lemma CutPieceIsGood(text: Text, limit: int, spans: seq<FenceSpan>, start: nat, reopen: Option<FenceSpan>)
    requires Usable(text, spans) && |text| - start > ContentLimit(limit, reopen)
    ensures var end := PieceEnd(text, spans, start, ContentLimit(limit, reopen));
            var close := FenceAt(spans, end);
            GoodPiece(text, limit, spans, Piece(start, end, NextStart(text, end, close), reopen, close))
  {
    hide PieceEnd, ContentLimit, FenceAt, SkipNewlines;
    NewlinesAreSpace();
  }

  lemma {:induction false} PiecesAreGood(
    text: Text, limit: int, spans: seq<FenceSpan>, start: nat, reopen: Option<FenceSpan>)
    requires Usable(text, spans) && start <= |text|
    ensures Chain(Good(text, limit, spans), start, |text|, reopen, Pieces(text, limit, spans, start, reopen))
    decreases |text| - start
  {
    var contentLimit := ContentLimit(limit, reopen);
    if start == |text| {
    } else if |text| - start <= contentLimit {
      assert FenceAt(spans, |text|) == None;
      assert [Piece(start, |text|, |text|, reopen, None)][1..] == [];
    } else {
      var end := PieceEnd(text, spans, start, contentLimit);
      var close := FenceAt(spans, end);
      var next := NextStart(text, end, close);
      CutPieceIsGood(text, limit, spans, start, reopen);
      PiecesAreGood(text, limit, spans, next, close);
      var pieces := Pieces(text, limit, spans, start, reopen);
      assert pieces[1..] == Pieces(text, limit, spans, next, close);
    }
  }

  // Every piece of a text that needs cutting, with its predecessor.
  lemma NthPiece(text: Text, limit: int, i: nat)
    requires 0 < limit < |text| && i < |PiecesOf(text, limit)|
    ensures Usable(text, Spans(text))
    ensures var pieces := PiecesOf(text, limit);
            && GoodPiece(text, limit, Spans(text), pieces[i])
            && if i == 0 then pieces[0].start == 0 && pieces[0].reopen == None
               else pieces[i].start == pieces[i - 1].next && pieces[i].reopen == pieces[i - 1].close
  {
    SpansAreUsable(text);
    PiecesAreGood(text, limit, Spans(text), 0, None);
    NthOfChain(Good(text, limit, Spans(text)), 0, |text|, None, PiecesOf(text, limit), i);
  }

  lemma NewlinesAreSpace()
    ensures IsSpace(NEWLINE)
  {
  }

  // ---------------------------------------------------------------- nothing is lost

  function Rebuilt(text: Text, pieces: seq<Piece>): Text
    requires Slices(text, pieces)
  {
    if pieces == [] then []
    else Raw(text, pieces[0]) + text[pieces[0].end..pieces[0].next] + Rebuilt(text, pieces[1..])
  }

  function RawText(text: Text, pieces: seq<Piece>): Text
    requires Slices(text, pieces)
  {
    if pieces == [] then [] else Raw(text, pieces[0]) + RawText(text, pieces[1..])
  }

  function NonSpace(text: Text): Text {
    if text == [] then [] else (if IsSpace(text[0]) then [] else [text[0]]) + NonSpace(text[1..])
  }

  lemma {:induction false} NonSpaceConcat(a: Text, b: Text)
    ensures NonSpace(a + b) == NonSpace(a) + NonSpace(b)
  {
    if a == [] {
      assert a + b == b;
    } else {
      assert (a + b)[1..] == a[1..] + b;
      NonSpaceConcat(a[1..], b);
    }
  }

  lemma {:induction false} NonSpaceOfSpace(text: Text)
    requires forall i :: 0 <= i < |text| ==> IsSpace(text[i])
    ensures NonSpace(text) == []
  {
    if text != [] { NonSpaceOfSpace(text[1..]); }
  }

  lemma {:induction false} PiecesRebuild(
    good: Piece -> bool, text: Text, start: nat, reopen: Option<FenceSpan>, pieces: seq<Piece>)
    requires start <= |text| && Slices(text, pieces) && Chain(good, start, |text|, reopen, pieces)
    requires forall p :: good(p) ==> p.end <= p.next <= |text| && AllSpace(text, p.end, p.next)
    ensures Rebuilt(text, pieces) == text[start..]
    ensures NonSpace(RawText(text, pieces)) == NonSpace(text[start..])
    decreases |pieces|
  {
    if pieces != [] {
      var p := pieces[0];
      var raw, gap, rest := Raw(text, p), text[p.end..p.next], text[p.next..];
      assert good(p);
      assert forall i :: 0 <= i < |pieces[1..]| ==> pieces[1..][i] == pieces[i + 1];
      PiecesRebuild(good, text, p.next, p.close, pieces[1..]);
      assert text[start..] == raw + gap + rest;
      DropGap(raw, gap, rest);
      NonSpaceConcat(raw, RawText(text, pieces[1..]));
    }
  }

  lemma DropGap(raw: Text, gap: Text, rest: Text)
    requires forall i :: 0 <= i < |gap| ==> IsSpace(gap[i])
    ensures NonSpace(raw + gap + rest) == NonSpace(raw) + NonSpace(rest)
  {
    NonSpaceConcat(raw + gap, rest);
    NonSpaceConcat(raw, gap);
    NonSpaceOfSpace(gap);
    assert NonSpace(raw) + [] == NonSpace(raw);
  }

  /**
   The raw contents of the chunks and the skipped gaps between them are the text, the gaps
   are white space only, and so all other characters survive in order.
   */
  lemma NothingButSpaceIsLost(text: Text, limit: int)
    requires 0 < limit < |text|
    ensures var pieces := PiecesOf(text, limit);
            && Slices(text, pieces) && Rebuilt(text, pieces) == text
            && (forall i :: 0 <= i < |pieces| ==> AllSpace(text, pieces[i].end, pieces[i].next))
            && NonSpace(RawText(text, pieces)) == NonSpace(text)
  {
    var pieces := PiecesOf(text, limit);
    SpansAreUsable(text);
    PiecesAreGood(text, limit, Spans(text), 0, None);
    PiecesAreSlices(text, limit, Spans(text), 0, None);
    PiecesRebuild(Good(text, limit, Spans(text)), text, 0, None, pieces);
    forall i | 0 <= i < |pieces| ensures AllSpace(text, pieces[i].end, pieces[i].next) {
      NthPiece(text, limit, i);
    }
    assert text[0..] == text;
  }

  // ---------------------------------------------------------------- fences

  // The fence whose piece ends at `end` is the only one with that break strictly inside.
  lemma InsideIsTheFence(text: Text, spans: seq<FenceSpan>, end: nat, k: nat)
    requires Usable(text, spans) && k < |spans| && Inside(spans[k], end)
    ensures FenceAt(spans, end) == Some(spans[k])
    ensures forall j :: 0 <= j < |spans| && Inside(spans[j], end) ==> j == k
  {
    FenceAtIsUnique(spans, end, k);
  }

  ghost predicate EndsWith(text: Text, suffix: Text) {
    |suffix| <= |text| && text[|text| - |suffix|..] == suffix
  }

  // A chunk that closes a fence ends with its closing line on a line of its own.
  lemma ClosedEndsWithLine(raw: Text, span: FenceSpan)
    requires raw != []
    ensures EndsWith(Closed(raw, Some(span)), [NEWLINE] + CloseLine(span))
  {
    var line := CloseLine(span);
    if raw[|raw| - 1] == NEWLINE {
      assert (raw + line)[|raw| - 1..] == [NEWLINE] + line;
    } else {
      assert raw + [NEWLINE] + line == raw + ([NEWLINE] + line);
    }
  }

  lemma RenderedPiece(text: Text, p: Piece)
    requires p.start < p.end <= |text|
    ensures p.close.Some? ==> EndsWith(Chunk(text, p), [NEWLINE] + CloseLine(p.close.value))
    ensures p.close.None? ==> Chunk(text, p) == ReopenPrefix(p.reopen) + Raw(text, p)
    ensures ReopenPrefix(p.reopen) + Raw(text, p) <= Chunk(text, p)
  {
    var raw := ReopenPrefix(p.reopen) + Raw(text, p);
    if p.close.Some? { ClosedEndsWithLine(raw, p.close.value); }
  }

  // One chunk with its fences told from the breaks before and behind it.
  lemma RenderedChunk(text: Text, limit: int, i: nat)
    requires 0 < limit < |text| && i < |PiecesOf(text, limit)|
    ensures Usable(text, Spans(text)) && Slices(text, PiecesOf(text, limit)) && i < |ChunkMarkdown(text, limit)|
    ensures var spans, pieces, chunk := Spans(text), PiecesOf(text, limit), ChunkMarkdown(text, limit)[i];
            var p := pieces[i];
            && p.close == FenceAt(spans, p.end)
            && p.reopen == (if i == 0 then None else FenceAt(spans, pieces[i - 1].end))
            && (p.close.Some? ==> EndsWith(chunk, [NEWLINE] + CloseLine(p.close.value)))
            && (p.close.None? ==> chunk == ReopenPrefix(p.reopen) + Raw(text, p))
            && ReopenPrefix(p.reopen) + Raw(text, p) <= chunk
            && (p.reopen.None? ==> Raw(text, p) <= chunk)
  {
    hide Spans, PiecesOf, ChunkMarkdown, FenceAt, Chunk, NextStart, PieceEnd, EndsWith, Usable;
    var p := PiecesOf(text, limit)[i];
    ChunksAreRenderings(text, limit, i);
    NthPiece(text, limit, i);
    if i > 0 { NthPiece(text, limit, i - 1); }
    RenderedPiece(text, p);
    assert [] + Raw(text, p) == Raw(text, p);
  }

  /**
   If the break of a chunk lies strictly inside a fence, that is the only such fence, the chunk
   ends with the fence's indent and marker on a line of its own, and the next chunk starts with
   the fence's opening line. Otherwise the chunk is what it reopened and its slice of the text,
   and the next one, if any, starts with its own slice.
   */
  lemma BreaksRespectFences(text: Text, limit: int, i: nat)
    requires 0 < limit < |text| && i < |PiecesOf(text, limit)|
    ensures Slices(text, PiecesOf(text, limit))
    ensures |ChunkMarkdown(text, limit)| == |PiecesOf(text, limit)|
    ensures var pieces := PiecesOf(text, limit);
            && pieces[i].close == FenceAt(Spans(text), pieces[i].end)
            && pieces[i].reopen == (if i == 0 then None else FenceAt(Spans(text), pieces[i - 1].end))
    ensures var spans, pieces, chunks := Spans(text), PiecesOf(text, limit), ChunkMarkdown(text, limit);
            forall k :: 0 <= k < |spans| && Inside(spans[k], pieces[i].end) ==>
              && (forall j :: 0 <= j < |spans| && Inside(spans[j], pieces[i].end) ==> j == k)
              && EndsWith(chunks[i], [NEWLINE] + (spans[k].indent + spans[k].marker))
              && (i + 1 < |chunks| ==> spans[k].openLine + [NEWLINE] + Raw(text, pieces[i + 1]) <= chunks[i + 1])
    ensures var spans, pieces, chunks := Spans(text), PiecesOf(text, limit), ChunkMarkdown(text, limit);
            (forall k :: 0 <= k < |spans| ==> !Inside(spans[k], pieces[i].end)) ==>
              && chunks[i] == ReopenPrefix(pieces[i].reopen) + Raw(text, pieces[i])
              && (i + 1 < |chunks| ==> Raw(text, pieces[i + 1]) <= chunks[i + 1])
  {
    hide Spans, PiecesOf, ChunkMarkdown, FenceAt, Inside, EndsWith, Usable;
    var spans, pieces := Spans(text), PiecesOf(text, limit);
    ChunksAreRenderings(text, limit, i);
    RenderedChunk(text, limit, i);
    if i + 1 < |pieces| { RenderedChunk(text, limit, i + 1); }
    forall k | 0 <= k < |spans| && Inside(spans[k], pieces[i].end)
      ensures FenceAt(spans, pieces[i].end) == Some(spans[k])
      ensures forall j :: 0 <= j < |spans| && Inside(spans[j], pieces[i].end) ==> j == k
    {
      InsideIsTheFence(text, spans, pieces[i].end, k);
    }
  }

  // What a piece that starts at `start` must reopen, given the spans.
  ghost predicate Reopens(spans: seq<FenceSpan>, start: nat, reopen: Option<FenceSpan>) {
    && (forall k :: 0 <= k < |spans| && spans[k].start + 1 < start < spans[k].end ==> reopen == Some(spans[k]))
    && (reopen.Some? ==> reopen.value.start < start <= reopen.value.end)
  }

  lemma OpeningUnits(text: Text, spans: seq<FenceSpan>, k: nat)
    requires Usable(text, spans) && k < |spans|
    ensures spans[k].start + 1 < |text| && text[spans[k].start] != NEWLINE && text[spans[k].start + 1] != NEWLINE
  {
    var span := spans[k];
    assert text[span.start] == span.openLine[0] && text[span.start + 1] == span.openLine[1];
    assert span.openLine[0] in span.openLine && span.openLine[1] in span.openLine;
  }

  // The gap behind a piece never swallows more than one unit of a fence's opening line: the
  // line starts with at least three units none of which is a newline.
  lemma GapKeepsFences(text: Text, spans: seq<FenceSpan>, end: nat, k: nat)
    requires Usable(text, spans) && end <= |text| && k < |spans|
    requires var next := NextStart(text, end, FenceAt(spans, end));
             spans[k].start + 1 < next < spans[k].end
    ensures FenceAt(spans, end) == Some(spans[k])
  {
    OpeningUnits(text, spans, k);
    if spans[k].start < end {
      FenceAtIsUnique(spans, end, k);
    }
  }

  lemma NextReopens(text: Text, spans: seq<FenceSpan>, end: nat)
    requires Usable(text, spans) && end <= |text|
    ensures Reopens(spans, NextStart(text, end, FenceAt(spans, end)), FenceAt(spans, end))
  {
    forall k | 0 <= k < |spans| && spans[k].start + 1 < NextStart(text, end, FenceAt(spans, end)) < spans[k].end
      ensures FenceAt(spans, end) == Some(spans[k])
    {
      GapKeepsFences(text, spans, end, k);
    }
  }

  // How far behind the start of another fence a gap can end.
  lemma GapSkipsOne(text: Text, spans: seq<FenceSpan>, end: nat, k: nat)
    requires Usable(text, spans) && end <= |text| && k < |spans| && FenceAt(spans, end) != Some(spans[k])
    requires NextStart(text, end, FenceAt(spans, end)) < spans[k].end
    ensures var next, start := NextStart(text, end, FenceAt(spans, end)), spans[k].start;
            && start < |text| && next <= start + 1
            && (next == start + 1 <==> end == start && IsSpace(text[start]))
  {
    OpeningUnits(text, spans, k);
    if spans[k].start < end {
      FenceAtIsUnique(spans, end, k);
    }
  }

  /**
   A chunk whose content starts inside a fence reopens that fence, and only such a chunk
   reopens one. A fence that a chunk closes was reopened by it or begins in it, except that the
   chunk starts one unit behind the start of the fence exactly if the chunk before it was broken
   right there and the opening line starts with white space, which the break skipped.
   */
  lemma ClosedFencesAreOpen(text: Text, limit: int, i: nat)
    requires 0 < limit < |text| && i < |PiecesOf(text, limit)|
    ensures var pieces := PiecesOf(text, limit);
            var p := pieces[i];
            && Reopens(Spans(text), p.start, p.reopen)
            && (p.close.Some? && p.reopen != p.close ==>
                  var opening := p.close.value.start;
                  && opening < |text|
                  && (i == 0 ==> p.start <= opening)
                  && (i > 0 ==>
                        if pieces[i - 1].end == opening && IsSpace(text[opening]) then p.start == opening + 1
                        else p.start <= opening))
  {
    hide Spans, PiecesOf, PieceEnd, NextStart, ContentLimit, FenceAt;
    var spans, pieces := Spans(text), PiecesOf(text, limit);
    NthPiece(text, limit, i);
    if i > 0 {
      NthPiece(text, limit, i - 1);
      NextReopens(text, spans, pieces[i - 1].end);
    }
    if pieces[i].close.Some? {
      var k :| 0 <= k < |spans| && spans[k] == pieces[i].close.value;
      assert Inside(spans[k], pieces[i].end);
      if i > 0 && pieces[i].reopen != pieces[i].close {
        GapSkipsOne(text, spans, pieces[i - 1].end, k);
      }
    }
  }

  // A newline, an indented fence line of three backticks, and the letters a to f.
  const INDENTED_TEXT: Text := [10, 32, 96, 96, 96, 10, 97, 98, 99, 100, 101, 102]

  lemma IndentedSpans(text: Text)
    requires text == INDENTED_TEXT
    ensures Spans(text) == [FenceSpan(1, 12, [32, 96, 96, 96], [96, 96, 96], [32])]
  {
    hide MatchFence, LineEnd;
    LineEndFrom(text, 0, 0);
    LineEndFrom(text, 1, 5);
    LineEndFrom(text, 6, 12);
    var first, second, third := LineAt(text, 0), LineAt(text, 1), LineAt(text, 6);
    assert first == [] && second == [32, 96, 96, 96] && third == [97, 98, 99, 100, 101, 102];
    IndentedFence(second);
    NoFence(first);
    NoFence(third);
    var open := Open(1, second, FenceLine([32], [96, 96, 96]));
    assert Advance(text, 0, [], None) == ([], None);
    assert Advance(text, 1, [], None) == ([], Some(open));
    assert Advance(text, 6, [], Some(open)) == ([], Some(open));
    assert SpansFrom(text, 6, [], Some(open)) == [SpanOf(open, 12)];
    assert SpansFrom(text, 1, [], None) == [SpanOf(open, 12)];
  }

  lemma NoFence(line: Text)
    requires line == [] || (line[0] != SPACE && line[0] != BACKTICK && line[0] != TILDE)
    ensures MatchFence(line) == None
  {
    assert RunLength(line, SPACE) == 0;
  }

  lemma {:induction false} LineEndFrom(text: Text, from: nat, end: nat)
    requires from <= end <= |text| && (forall i :: from <= i < end ==> text[i] != NEWLINE)
    requires end == |text| || text[end] == NEWLINE
    ensures LineEnd(text, from) == end
    decreases end - from
  {
    if from < end { LineEndFrom(text, from + 1, end); }
  }

  lemma IndentedFence(line: Text)
    requires line == [32, 96, 96, 96]
    ensures MatchFence(line) == Some(FenceLine([32], [96, 96, 96]))
  {
    var marks := line[1..];
    assert marks == [96, 96, 96] && marks[1..] == [96, 96] && [96, 96][1..] == [96 as CodeUnit];
    assert RunLength([96], BACKTICK) == 1;
    assert RunLength([96, 96], BACKTICK) == 2;
    assert RunLength(marks, BACKTICK) == 3;
    assert RunLength(marks, SPACE) == 0;
    assert RunLength(line, SPACE) == 1;
    assert line[..1] == [32] && line[1..4] == marks;
  }

  // The first break falls on the indentation and skips it.
  lemma IndentedBreak(text: Text, spans: seq<FenceSpan>)
    requires Usable(text, spans) && |text| == 12 && text[0] == NEWLINE && text[1] == SPACE && text[2] == BACKTICK
    requires spans == [FenceSpan(1, 12, [32, 96, 96, 96], [96, 96, 96], [32])]
    ensures PieceEnd(text, spans, 0, 6) == 1 && FenceAt(spans, 1) == None && NextStart(text, 1, None) == 2
    ensures PieceEnd(text, spans, 2, 6) == 8 && FenceAt(spans, 8) == Some(spans[0])
  {
    assert forall i: nat :: 1 < i < 12 ==> FenceAt(spans, i) == Some(spans[0]);
    assert ScanTo(text, spans, 0, 2) == Scan(0, 1, 0) by {
      assert FenceAt(spans, 0) == None && FenceAt(spans, 1) == None;
      assert ScanTo(text, spans, 0, 1) == Scan(0, -1, 0);
    }
    ScanSkipsFence(text, spans, 0, 2, 6);
    ScanSkipsFence(text, spans, 2, 2, 8);
    assert |CloseLine(spans[0])| == 4;
  }

  // The scan changes nothing while it is inside fences.
  lemma {:induction false} ScanSkipsFence(text: Text, spans: seq<FenceSpan>, start: nat, mid: nat, end: nat)
    requires start <= mid <= end <= |text|
    requires forall i :: mid <= i < end ==> FenceAt(spans, i).Some?
    ensures ScanTo(text, spans, start, end) == ScanTo(text, spans, start, mid)
    decreases end
  {
    if mid < end { ScanSkipsFence(text, spans, start, mid, end - 1); }
  }

  lemma FirstPieces(text: Text, limit: int)
    requires 0 < limit < |text| && Usable(text, Spans(text))
    ensures var spans := Spans(text);
            var end := PieceEnd(text, spans, 0, limit);
            var close := FenceAt(spans, end);
            var next := NextStart(text, end, close);
            && PiecesOf(text, limit) == [Piece(0, end, next, None, close)] + Pieces(text, limit, spans, next, close)
  {
    assert ContentLimit(limit, None) == limit;
  }

  /** Indentation can be lost: with limit 6 the second chunk closes a fence and starts one unit inside it. */
  lemma IndentationCanBeLost(text: Text)
    requires text == INDENTED_TEXT
    ensures var pieces := PiecesOf(text, 6);
            && |pieces| > 1 && pieces[0].end == 1 && pieces[1].start == 2 && pieces[1].reopen == None
            && pieces[1].close == Some(FenceSpan(1, 12, [32, 96, 96, 96], [96, 96, 96], [32]))
  {
    hide Spans, PieceEnd, FenceAt, NextStart, PiecesOf;
    var spans := Spans(text);
    IndentedSpans(text);
    SpansAreUsable(text);
    IndentedBreak(text, spans);
    FirstPieces(text, 6);
    assert ContentLimit(6, None) == 6;
    assert Pieces(text, 6, spans, 2, None)[0] == Piece(2, 8, NextStart(text, 8, Some(spans[0])), None, Some(spans[0]));
  }

  // ---------------------------------------------------------------- lengths

  // The fence to close leaves no break that fits the limit together with its closing line.
  predicate Cramped(text: Text, spans: seq<FenceSpan>, start: nat, contentLimit: nat, span: FenceSpan) {
    var room := contentLimit - |CloseLine(span)|;
    var min := MinProgress(start, span);
    room <= 1 || min > start + room || (min == start + room && !Candidate(text, spans, span, min))
  }

  lemma FenceBreakLength(
    text: Text, spans: seq<FenceSpan>, start: nat, contentLimit: nat, span: FenceSpan, prefix: Text)
    requires Usable(text, spans) && contentLimit >= 1 && CloseLine(span) != [] && start + contentLimit < |text|
    requires FenceAt(spans, start + contentLimit) == Some(span)
    ensures var b := FenceBreak(text, spans, start, contentLimit, span);
            (|Closed(prefix + text[start..b], Some(span))| > |prefix| + contentLimit
             <==> Cramped(text, spans, start, contentLimit, span))
  {
    hide LastCandidate, FenceAt, Usable;
    var b := FenceBreak(text, spans, start, contentLimit, span);
    var raw := prefix + text[start..b];
    assert raw[|raw| - 1] == text[b - 1];
    FenceBreakStaysInside(text, spans, start, contentLimit, span);
  }

  // A break inside a fence is a hard break moved by `FenceBreak`.
  lemma FenceBreaksAreHard(text: Text, spans: seq<FenceSpan>, start: nat, contentLimit: nat)
    requires Usable(text, spans) && contentLimit >= 1 && start + contentLimit < |text|
    requires FenceAt(spans, PieceEnd(text, spans, start, contentLimit)).Some?
    ensures var span := FenceAt(spans, PieceEnd(text, spans, start, contentLimit)).value;
            && FenceAt(spans, start + contentLimit) == Some(span) && CloseLine(span) != []
            && PieceEnd(text, spans, start, contentLimit) == FenceBreak(text, spans, start, contentLimit, span)
  {
    hide ScanTo, FenceBreak, FenceAt;
    SoftBreaksAreSafe(text, spans, start, start + contentLimit);
    FenceBreakStaysInside(text, spans, start, contentLimit, FenceAt(spans, start + contentLimit).value);
  }

  lemma NoFenceAtTheEnd(text: Text, spans: seq<FenceSpan>)
    requires Usable(text, spans)
    ensures FenceAt(spans, |text|) == None
  {
  }

  // A piece that closes a fence ends where `FenceBreak` says.
  lemma ClosedPieceBreaks(text: Text, limit: int, spans: seq<FenceSpan>, p: Piece)
    requires Usable(text, spans) && GoodPiece(text, limit, spans, p) && p.close.Some?
    ensures var contentLimit := ContentLimit(limit, p.reopen);
            && p.start + contentLimit < |text| && FenceAt(spans, p.start + contentLimit) == p.close
            && CloseLine(p.close.value) != []
            && p.end == FenceBreak(text, spans, p.start, contentLimit, p.close.value)
  {
    NoFenceAtTheEnd(text, spans);
    FenceBreaksAreHard(text, spans, p.start, ContentLimit(limit, p.reopen));
  }

  lemma ClosedPieceLength(text: Text, limit: int, spans: seq<FenceSpan>, p: Piece)
    requires Usable(text, spans) && GoodPiece(text, limit, spans, p) && p.close.Some?
    ensures var prefix, contentLimit := |ReopenPrefix(p.reopen)|, ContentLimit(limit, p.reopen);
            |Chunk(text, p)| > prefix + contentLimit <==> Cramped(text, spans, p.start, contentLimit, p.close.value)
  {
    ClosedPieceBreaks(text, limit, spans, p);
    FenceBreakLength(text, spans, p.start, ContentLimit(limit, p.reopen), p.close.value, ReopenPrefix(p.reopen));
  }

  lemma PieceLength(text: Text, limit: int, spans: seq<FenceSpan>, p: Piece)
    requires Usable(text, spans) && GoodPiece(text, limit, spans, p)
    ensures var prefix, n := |ReopenPrefix(p.reopen)|, |Chunk(text, p)|;
            && n <= Max(limit, prefix + 1) + (if p.close.Some? then 1 + |CloseLine(p.close.value)| else 0)
            && (n > limit <==>
                  prefix >= limit || (p.close.Some? && Cramped(text, spans, p.start, limit - prefix, p.close.value)))
  {
    if p.close.Some? {
      ClosedPieceLength(text, limit, spans, p);
    }
  }

  /**
   A chunk is never longer than the limit, or the reopened line and one unit, plus a newline
   and the closing line. It exceeds the limit exactly when the reopened line alone reaches it,
   or the chunk closes a fence that leaves no room for its closing line.
   */
  lemma ChunkLengths(text: Text, limit: int, i: nat)
    requires 0 < limit < |text| && i < |PiecesOf(text, limit)|
    requires Slices(text, PiecesOf(text, limit))
    ensures var p := PiecesOf(text, limit)[i];
            var prefix, n := |ReopenPrefix(p.reopen)|, |Chunk(text, p)|;
            && n <= Max(limit, prefix + 1) + (if p.close.Some? then 1 + |CloseLine(p.close.value)| else 0)
            && (n > limit <==>
                  || prefix >= limit
                  || (p.close.Some? && Cramped(text, Spans(text), p.start, limit - prefix, p.close.value)))
  {
    NthPiece(text, limit, i);
    PieceLength(text, limit, Spans(text), PiecesOf(text, limit)[i]);
  }

  /** The chunks returned are the renderings of those pieces, one each and never empty. */
  lemma {:induction false} ChunksAreRenderings(text: Text, limit: int, i: nat)
    requires 0 < limit < |text|
    ensures var pieces := PiecesOf(text, limit);
            && Slices(text, pieces) && |ChunkMarkdown(text, limit)| == |pieces|
            && (i < |pieces| ==> ChunkMarkdown(text, limit)[i] == Chunk(text, pieces[i]) != [])
  {
    SpansAreUsable(text);
    PiecesAreSlices(text, limit, Spans(text), 0, None);
    ChunkOfPiece(text, PiecesOf(text, limit), i);
  }

  lemma {:induction false} ChunkOfPiece(text: Text, pieces: seq<Piece>, i: nat)
    requires Slices(text, pieces)
    ensures |Chunks(text, pieces)| == |pieces|
    ensures i < |pieces| ==> Chunks(text, pieces)[i] == Chunk(text, pieces[i]) != []
  {
    if pieces != [] { ChunkOfPiece(text, pieces[1..], if i > 0 then i - 1 else 0); }
  }

  // Three backticks, a newline and the letters a to f: an open block that the limit 6 splits.
  const CRAMPED_TEXT: Text := [96, 96, 96, 10, 97, 98, 99, 100, 101, 102]

  lemma CrampedSpans(text: Text)
    requires text == CRAMPED_TEXT
    ensures Spans(text) == [FenceSpan(0, 10, [96, 96, 96], [96, 96, 96], [])]
  {
    hide LineEnd;
    LineEndFrom(text, 0, 3);
    LineEndFrom(text, 4, 10);
    var first, second := LineAt(text, 0), LineAt(text, 4);
    assert first == [96, 96, 96] && second == [97, 98, 99, 100, 101, 102];
    assert RunLength(first, SPACE) == 0 && first[0..] == first;
    assert RunLength(first, BACKTICK) == 3 by {
      assert first[1..] == [96, 96] && [96, 96][1..] == [96 as CodeUnit];
      assert RunLength([96], BACKTICK) == 1;
      assert RunLength([96, 96], BACKTICK) == 2;
    }
    assert first[..0] == [] && first[0..3] == first && RunLength(first[0..], first[0]) == 3;
    assert MatchFence(first) == Some(FenceLine([], first));
    NoFence(second);
    hide MatchFence;
    var open := Open(0, first, FenceLine([], first));
    assert Advance(text, 0, [], None) == ([], Some(open));
    assert Advance(text, 4, [], Some(open)) == ([], Some(open));
    assert SpansFrom(text, 4, [], Some(open)) == [SpanOf(open, 10)];
  }

  // The first chunk of a text that needs cutting, if its break splits a fence.
  lemma FirstChunk(text: Text, limit: int, spans: seq<FenceSpan>, span: FenceSpan)
    requires 0 < limit < |text| && spans == Spans(text) && Usable(text, spans)
    requires FenceAt(spans, PieceEnd(text, spans, 0, limit)) == Some(span)
    ensures |ChunkMarkdown(text, limit)| > 0
    ensures ChunkMarkdown(text, limit)[0] == Closed(text[..PieceEnd(text, spans, 0, limit)], Some(span))
  {
    var end := PieceEnd(text, spans, 0, limit);
    PiecesAreGood(text, limit, spans, 0, None);
    assert PiecesOf(text, limit) != [];
    NthPiece(text, limit, 0);
    FirstPieceIsCut(text, limit, spans, PiecesOf(text, limit)[0]);
    ChunksAreRenderings(text, limit, 0);
    RenderFirst(text, PiecesOf(text, limit)[0], end, span);
  }

  lemma FirstPieceIsCut(text: Text, limit: int, spans: seq<FenceSpan>, p: Piece)
    requires 0 < limit < |text| && Usable(text, spans) && GoodPiece(text, limit, spans, p)
    requires p.start == 0 && p.reopen == None
    ensures p.end == PieceEnd(text, spans, 0, limit) && p.close == FenceAt(spans, p.end)
  {
    assert ContentLimit(limit, None) == limit;
  }

  lemma RenderFirst(text: Text, p: Piece, end: nat, span: FenceSpan)
    requires p.start == 0 <= p.end == end <= |text| && p.reopen == None && p.close == Some(span)
    ensures Chunk(text, p) == Closed(text[..end], Some(span))
  {
    assert [] + text[0..end] == text[..end];
  }

  lemma CrampedBreak(text: Text, spans: seq<FenceSpan>, span: FenceSpan)
    requires Usable(text, spans) && |text| == 10
    requires span == FenceSpan(0, 10, [96, 96, 96], [96, 96, 96], []) && spans == [span]
    ensures PieceEnd(text, spans, 0, 6) == 6 && FenceAt(spans, 6) == Some(span)
  {
    hide ScanTo;
    SoftBreaksAreSafe(text, spans, 0, 6);
    assert forall i: nat :: 0 < i < 10 ==> FenceAt(spans, i) == Some(span);
    assert |CloseLine(span)| == 3;
  }

  /** The limit itself is not always kept: here the first chunk of limit 6 has ten units. */
  lemma LimitIsNotAlwaysKept(text: Text)
    requires text == CRAMPED_TEXT
    ensures |ChunkMarkdown(text, 6)| > 0 && |ChunkMarkdown(text, 6)[0]| == 10
  {
    hide ChunkMarkdown, Spans, PieceEnd, FenceAt;
    var spans := Spans(text);
    CrampedSpans(text);
    SpansAreUsable(text);
    CrampedBreak(text, spans, spans[0]);
    FirstChunk(text, 6, spans, spans[0]);
  }

  // ---------------------------------------------------------------- soft breaks

  // A character between chunks is best dropped here: outside parentheses and fences.
  predicate Breakable(text: Text, spans: seq<FenceSpan>, start: nat, i: nat)
    requires start <= i < |text|
  {
    FenceAt(spans, i).None? && ScanTo(text, spans, start, i).depth == 0 && IsSpace(text[i])
  }

  lemma {:induction false} ScanFindsTheLast(text: Text, spans: seq<FenceSpan>, start: nat, end: nat, i: nat)
    requires start <= i < end <= |text| && Breakable(text, spans, start, i)
    ensures var s := ScanTo(text, spans, start, end);
            if text[i] == NEWLINE then i <= s.lastNewline else i <= s.lastWhitespace
    decreases end
  {
    if i < end - 1 { ScanFindsTheLast(text, spans, start, end - 1, i); }
  }

  lemma {:induction false} ScanFindsBreakable(text: Text, spans: seq<FenceSpan>, start: nat, end: nat)
    requires start <= end <= |text|
    ensures var s := ScanTo(text, spans, start, end);
            && (s.lastNewline >= 0 ==> start <= s.lastNewline && Breakable(text, spans, start, s.lastNewline)
                                       && text[s.lastNewline] == NEWLINE)
            && (s.lastWhitespace >= 0 ==> start <= s.lastWhitespace && Breakable(text, spans, start, s.lastWhitespace))
    decreases end
  {
    if start < end { ScanFindsBreakable(text, spans, start, end - 1); }
  }

  /**
   A chunk that must end early ends at the last breakable newline of its window, else at the
   last breakable white space, and is cut at the limit only if there is neither.
   */
  lemma SoftBreakIsTheBest(text: Text, spans: seq<FenceSpan>, start: nat, end: nat, i: nat)
    requires start < i < end <= |text| && Breakable(text, spans, start, i)
    ensures var b := SoftBreak(text, spans, start, end);
            && start < b < end && Breakable(text, spans, start, b)
            && (text[i] == NEWLINE ==> text[b] == NEWLINE && i <= b)
            && (text[b] != NEWLINE ==> i <= b)
  {
    ScanFindsTheLast(text, spans, start, end, i);
    ScanFindsBreakable(text, spans, start, end);
  }
}
