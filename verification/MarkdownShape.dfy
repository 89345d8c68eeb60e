/**
 What the chunker does on every text and limit, stated on what it returns: when it cuts at all,
 that nothing is lost, where each chunk ends, what is skipped behind it, and how it is rendered.
 */
module MarkdownShape {
  import opened Optional
  import opened JsText
  import opened Fences
  import opened MarkdownPieces
  import opened MarkdownChunker
  import opened MarkdownTheorems

  // ---------------------------------------------------------------- every text and limit

  /** Nothing comes of the empty text alone; a text that need not be cut is its only chunk. */
  lemma CutsOnlyIfNeeded(text: Text, limit: int)
    ensures ChunkMarkdown(text, limit) == [] <==> text == []
    ensures text != [] && (limit <= 0 || |text| <= limit) ==> ChunkMarkdown(text, limit) == [text]
  {
    if 0 < limit < |text| {
      hide ChunkMarkdown;
      PiecesExist(text, limit);
      ChunksAreRenderings(text, limit, 0);
    }
  }

  lemma PiecesExist(text: Text, limit: int)
    requires 0 < limit < |text|
    ensures PiecesOf(text, limit) != []
  {
    SpansAreUsable(text);
    hide Spans, PieceEnd, NextStart, FenceAt;
  }

  ghost predicate PartAt(whole: Text, part: Text, i: nat) {
    i + |part| <= |whole| && whole[i..i + |part|] == part
  }

  ghost predicate PartOf(whole: Text, part: Text) {
    exists i: nat :: PartAt(whole, part, i)
  }

  // The parts and the gaps behind them, one after the other.
  function Interleaved(parts: seq<Text>, gaps: seq<Text>): Text
    requires |parts| == |gaps|
  {
    if parts == [] then [] else parts[0] + gaps[0] + Interleaved(parts[1..], gaps[1..])
  }

  function Concat(parts: seq<Text>): Text {
    if parts == [] then [] else parts[0] + Concat(parts[1..])
  }

  function RawsOf(text: Text, pieces: seq<Piece>): seq<Text>
    requires Slices(text, pieces)
  {
    if pieces == [] then [] else [Raw(text, pieces[0])] + RawsOf(text, pieces[1..])
  }

  function GapsOf(text: Text, pieces: seq<Piece>): seq<Text>
    requires Slices(text, pieces)
  {
    if pieces == [] then [] else [text[pieces[0].end..pieces[0].next]] + GapsOf(text, pieces[1..])
  }

  lemma {:induction false} PartsOfPieces(text: Text, pieces: seq<Piece>)
    requires Slices(text, pieces)
    ensures |RawsOf(text, pieces)| == |GapsOf(text, pieces)| == |pieces|
    ensures Interleaved(RawsOf(text, pieces), GapsOf(text, pieces)) == Rebuilt(text, pieces)
    ensures Concat(RawsOf(text, pieces)) == RawText(text, pieces)
    ensures forall i :: 0 <= i < |pieces| ==>
      && RawsOf(text, pieces)[i] == Raw(text, pieces[i])
      && GapsOf(text, pieces)[i] == text[pieces[i].end..pieces[i].next]
  {
    if pieces != [] {
      PartsOfPieces(text, pieces[1..]);
      assert RawsOf(text, pieces)[1..] == RawsOf(text, pieces[1..]);
      assert GapsOf(text, pieces)[1..] == GapsOf(text, pieces[1..]);
    }
  }

  lemma RawIsPart(text: Text, limit: int, i: nat)
    requires 0 < limit < |text| && i < |PiecesOf(text, limit)|
    ensures Slices(text, PiecesOf(text, limit)) && i < |ChunkMarkdown(text, limit)|
    ensures PartOf(ChunkMarkdown(text, limit)[i], Raw(text, PiecesOf(text, limit)[i]))
  {
    hide PiecesOf, ChunkMarkdown, Spans, FenceAt;
    RenderedChunk(text, limit, i);
    var chunk, p := ChunkMarkdown(text, limit)[i], PiecesOf(text, limit)[i];
    var prefix, raw := ReopenPrefix(p.reopen), Raw(text, p);
    assert chunk[..|prefix + raw|] == prefix + raw;
    assert PartAt(chunk, raw, |prefix|);
  }

  /**
   On every text and limit each chunk holds one part of the text, in order, and the parts with the
   gaps between them are the text; the gaps are blank, and so all other characters survive.
   */
  lemma NothingIsLost(text: Text, limit: int) returns (parts: seq<Text>, gaps: seq<Text>)
    ensures |parts| == |gaps| == |ChunkMarkdown(text, limit)|
    ensures forall i :: 0 <= i < |parts| ==> PartOf(ChunkMarkdown(text, limit)[i], parts[i]) && Blank(gaps[i])
    ensures Interleaved(parts, gaps) == text && NonSpace(Concat(parts)) == NonSpace(text)
  {
    if text == [] {
      parts, gaps := [], [];
    } else if limit <= 0 || |text| <= limit {
      parts, gaps := [text], [[]];
      assert PartAt(text, text, 0);
      assert Interleaved(parts, gaps) == text + [] + Interleaved([], []) == text;
      assert Concat(parts) == text + Concat([]) == text;
    } else {
      var pieces := PiecesOf(text, limit);
      hide ChunkMarkdown, PiecesOf, Spans, PartOf;
      NothingButSpaceIsLost(text, limit);
      PartsOfPieces(text, pieces);
      ChunksAreRenderings(text, limit, 0);
      parts, gaps := RawsOf(text, pieces), GapsOf(text, pieces);
      forall i | 0 <= i < |parts| ensures PartOf(ChunkMarkdown(text, limit)[i], parts[i]) && Blank(gaps[i]) {
        RawIsPart(text, limit, i);
        GapIsBlank(text, pieces[i]);
      }
    }
  }

  lemma GapIsBlank(text: Text, p: Piece)
    requires p.end <= p.next <= |text| && AllSpace(text, p.end, p.next)
    ensures Blank(text[p.end..p.next])
  {
  }

  // ---------------------------------------------------------------- parentheses

  // Opening minus closing parentheses of text[start..end] outside fences.
  function Net(text: Text, spans: seq<FenceSpan>, start: nat, end: nat): int
    requires start <= end <= |text|
    decreases end
  {
    if end == start then 0
    else
      Net(text, spans, start, end - 1)
      + (if FenceAt(spans, end - 1).Some? then 0
         else if text[end - 1] == OPEN_PAREN then 1
         else if text[end - 1] == CLOSE_PAREN then -1
         else 0)
  }

  ghost predicate LowestNet(text: Text, spans: seq<FenceSpan>, start: nat, end: nat, low: int)
    requires start <= end <= |text|
  {
    && (forall n :: start <= n <= end ==> low <= Net(text, spans, start, n))
    && (exists n :: start <= n <= end && low == Net(text, spans, start, n))
  }

  /**
   The parenthesis depth forgets closing parentheses that close nothing: it is the number of
   opening minus closing ones, above the lowest such number on the way.
   */
  lemma {:induction false} DepthIsNetAboveLowest(text: Text, spans: seq<FenceSpan>, start: nat, end: nat)
    requires start <= end <= |text|
    ensures LowestNet(text, spans, start, end, Net(text, spans, start, end) - ScanTo(text, spans, start, end).depth)
    decreases end
  {
    hide FenceAt;
    if start < end {
      DepthIsNetAboveLowest(text, spans, start, end - 1);
      var before := Net(text, spans, start, end - 1) - ScanTo(text, spans, start, end - 1).depth;
      var low := Net(text, spans, start, end) - ScanTo(text, spans, start, end).depth;
      var n :| start <= n <= end - 1 && before == Net(text, spans, start, n);
      assert low == before || low == Net(text, spans, start, end);
    } else {
      assert Net(text, spans, start, start) == 0;
    }
  }

  // ---------------------------------------------------------------- where a chunk ends

  // A soft break may fall here: white space outside fences and outside parentheses.
  ghost predicate SoftPlace(text: Text, spans: seq<FenceSpan>, start: nat, i: nat)
    requires start <= i < |text|
  {
    && IsSpace(text[i])
    && (forall k :: 0 <= k < |spans| ==> !Inside(spans[k], i))
    && LowestNet(text, spans, start, i, Net(text, spans, start, i))
  }

  lemma SoftPlaceIsBreakable(text: Text, spans: seq<FenceSpan>, start: nat, i: nat)
    requires start <= i < |text|
    ensures SoftPlace(text, spans, start, i) <==> Breakable(text, spans, start, i)
  {
    DepthIsNetAboveLowest(text, spans, start, i);
    hide ScanTo;
    if FenceAt(spans, i).Some? {
      var k :| 0 <= k < |spans| && spans[k] == FenceAt(spans, i).value;
      assert Inside(spans[k], i);
    }
  }

  // A line start strictly inside the fence.
  ghost predicate LineInside(text: Text, span: FenceSpan, c: nat) {
    0 < c <= |text| && text[c - 1] == NEWLINE && Inside(span, c)
  }

  lemma CandidateIsLineInside(text: Text, spans: seq<FenceSpan>, span: FenceSpan, k: nat, c: nat)
    requires Usable(text, spans) && k < |spans| && spans[k] == span
    ensures Candidate(text, spans, span, c) <==> LineInside(text, span, c)
  {
    if Inside(span, c) { FenceAtIsUnique(spans, c, k); }
    if FenceAt(spans, c).Some? {
      var j :| 0 <= j < |spans| && spans[j] == FenceAt(spans, c).value;
      assert spans[j].start == span.start ==> j == k;
    }
  }

  /**
   Inside a fence a chunk ends at the last line start at which its closing line still fits, if
   there is one behind the opening line; else where the closing line just fits on a line of its
   own; and if it fits nowhere behind the opening line, at the limit.
   */
  ghost predicate FenceEnd(text: Text, start: nat, contentLimit: nat, span: FenceSpan, b: nat) {
    var last := start + contentLimit - |CloseLine(span)|;
    var least := Max(start + 1, span.start + |span.openLine| + 2);
    if last <= start + 1 || least > last then b == start + contentLimit
    else if exists c: nat :: least <= c <= last && LineInside(text, span, c) then
      && least <= b <= last && LineInside(text, span, b)
      && forall d: nat :: b < d <= last ==> !LineInside(text, span, d)
    else b == Max(least, last - 1)
  }

  lemma FenceBreakIsTheBest(text: Text, spans: seq<FenceSpan>, start: nat, contentLimit: nat, span: FenceSpan, k: nat)
    requires Usable(text, spans) && contentLimit >= 1 && k < |spans| && spans[k] == span && CloseLine(span) != []
    ensures FenceEnd(text, start, contentLimit, span, FenceBreak(text, spans, start, contentLimit, span))
  {
    forall c: nat ensures Candidate(text, spans, span, c) <==> LineInside(text, span, c) {
      CandidateIsLineInside(text, spans, span, k, c);
    }
    hide Candidate, LineInside, Usable;
  }

  // No unit strictly between the two can end a chunk.
  ghost predicate NoSoftPlace(text: Text, spans: seq<FenceSpan>, start: nat, end: nat)
    requires end <= |text|
  {
    forall q :: start < q < end ==> !SoftPlace(text, spans, start, q)
  }

  lemma NoSoftPlaceNoBreak(text: Text, spans: seq<FenceSpan>, start: nat, end: nat)
    requires start <= end <= |text| && NoSoftPlace(text, spans, start, end)
    ensures SoftBreak(text, spans, start, end) == -1
  {
    ScanFindsBreakable(text, spans, start, end);
    forall q | start < q < end ensures !Breakable(text, spans, start, q) {
      SoftPlaceIsBreakable(text, spans, start, q);
    }
    hide SoftPlace, Breakable, ScanTo;
  }

  // What a piece that starts at `start` and cannot take all up to `window` and beyond ends at.
  ghost predicate EndsAtSoftPlace(text: Text, spans: seq<FenceSpan>, start: nat, window: nat, b: nat)
    requires window <= |text|
  {
    forall q :: start < q < window && SoftPlace(text, spans, start, q) ==>
      && start < b < window && SoftPlace(text, spans, start, b)
      && (text[q] == NEWLINE ==> text[b] == NEWLINE && q <= b)
      && (text[b] != NEWLINE ==> q <= b)
  }

  ghost predicate EndsAtHardPlace(text: Text, spans: seq<FenceSpan>, start: nat, window: nat, b: nat)
    requires start <= window
  {
    && (forall k :: 0 <= k < |spans| && Inside(spans[k], window) ==> FenceEnd(text, start, window - start, spans[k], b))
    && ((forall k :: 0 <= k < |spans| ==> !Inside(spans[k], window)) ==> b == window)
  }

  lemma EndsSoft(text: Text, spans: seq<FenceSpan>, start: nat, n: nat)
    requires Usable(text, spans) && n >= 1 && start + n < |text|
    ensures EndsAtSoftPlace(text, spans, start, start + n, PieceEnd(text, spans, start, n))
  {
    hide SoftPlace, Breakable, SoftBreak, Usable, FenceBreak;
    forall q | start < q < start + n && SoftPlace(text, spans, start, q)
      ensures var b := PieceEnd(text, spans, start, n);
              && start < b < start + n && SoftPlace(text, spans, start, b)
              && (text[q] == NEWLINE ==> text[b] == NEWLINE && q <= b)
              && (text[b] != NEWLINE ==> q <= b)
    {
      SoftPlaceIsBreakable(text, spans, start, q);
      SoftBreakIsTheBest(text, spans, start, start + n, q);
      SoftPlaceIsBreakable(text, spans, start, SoftBreak(text, spans, start, start + n));
    }
  }

  lemma EndsHard(text: Text, spans: seq<FenceSpan>, start: nat, n: nat)
    requires Usable(text, spans) && n >= 1 && start + n < |text|
    requires NoSoftPlace(text, spans, start, start + n)
    ensures EndsAtHardPlace(text, spans, start, start + n, PieceEnd(text, spans, start, n))
  {
    hide NoSoftPlace, SoftBreak, FenceBreak, FenceEnd;
    NoSoftPlaceNoBreak(text, spans, start, start + n);
    if FenceAt(spans, start + n).Some? {
      assert Inside(FenceAt(spans, start + n).value, start + n);
    }
    forall k | 0 <= k < |spans| && Inside(spans[k], start + n)
      ensures FenceEnd(text, start, n, spans[k], PieceEnd(text, spans, start, n))
    {
      InsideIsTheFence(text, spans, start + n, k);
      FenceBreakIsTheBest(text, spans, start, n, spans[k], k);
    }
  }

  /**
   The last chunk takes the rest of the text exactly if the rest fits behind the line that is
   reopened. Any other chunk ends at the last newline of its window at which a soft break may
   fall, else at the last such white space, else where the fence it is in can be closed best,
   and without a fence at the end of the window.
   */
  lemma ChunkEndsAtTheBestPlace(text: Text, limit: int, i: nat)
    requires 0 < limit < |text| && i < |PiecesOf(text, limit)|
    ensures var p, spans := PiecesOf(text, limit)[i], Spans(text);
            var window := p.start + Max(1, limit - |ReopenPrefix(p.reopen)|);
            if |text| <= window then p.end == |text|
            else
              && EndsAtSoftPlace(text, spans, p.start, window, p.end)
              && (NoSoftPlace(text, spans, p.start, window) ==>
                    EndsAtHardPlace(text, spans, p.start, window, p.end))
  {
    hide Spans, PiecesOf, PieceEnd, EndsAtSoftPlace, EndsAtHardPlace, NoSoftPlace, Usable, NextStart, FenceAt;
    NthPiece(text, limit, i);
    var p, spans := PiecesOf(text, limit)[i], Spans(text);
    var n := ContentLimit(limit, p.reopen);
    if p.start + n < |text| {
      EndsSoft(text, spans, p.start, n);
      if NoSoftPlace(text, spans, p.start, p.start + n) { EndsHard(text, spans, p.start, n); }
    }
  }

  lemma {:induction false} SkipStopsAtOther(text: Text, start: nat)
    requires start <= |text|
    ensures SkipNewlines(text, start) < |text| ==> text[SkipNewlines(text, start)] != NEWLINE
    decreases |text| - start
  {
    if start < |text| && text[start] == NEWLINE { SkipStopsAtOther(text, start + 1); }
  }

  // What is skipped behind `end`.
  ghost predicate Gap(text: Text, spans: seq<FenceSpan>, end: nat, next: nat) {
    var behind := end + if end < |text| && IsSpace(text[end]) then 1 else 0;
    && behind <= next <= |text|
    && ((exists k :: 0 <= k < |spans| && Inside(spans[k], end)) ==> next == behind)
    && ((forall k :: 0 <= k < |spans| ==> !Inside(spans[k], end)) ==>
          && (forall j :: behind <= j < next ==> text[j] == NEWLINE)
          && (next < |text| ==> text[next] != NEWLINE))
  }

  /**
   The unit at which a chunk ends is skipped exactly if it is white space; behind it all
   newlines are skipped, but none of them inside a fence.
   */
  lemma GapIsExact(text: Text, limit: int, i: nat)
    requires 0 < limit < |text| && i < |PiecesOf(text, limit)|
    ensures Gap(text, Spans(text), PiecesOf(text, limit)[i].end, PiecesOf(text, limit)[i].next)
  {
    hide Spans, PiecesOf, PieceEnd, SkipNewlines, Usable;
    NthPiece(text, limit, i);
    var p, spans := PiecesOf(text, limit)[i], Spans(text);
    SkipStopsAtOther(text, p.end);
    if p.end < |text| { SkipStopsAtOther(text, p.end + 1); }
    if FenceAt(spans, p.end).Some? { assert Inside(FenceAt(spans, p.end).value, p.end); }
    hide FenceAt;
  }

  // ---------------------------------------------------------------- how a chunk is rendered

  // The line put in front of a chunk behind a break at `end`.
  ghost predicate Opening(spans: seq<FenceSpan>, end: nat, prefix: Text) {
    && (forall k :: 0 <= k < |spans| && Inside(spans[k], end) ==> prefix == spans[k].openLine + [NEWLINE])
    && ((forall k :: 0 <= k < |spans| ==> !Inside(spans[k], end)) ==> prefix == [])
  }

  // The line put behind a chunk that is broken at `end`: a newline only where there is none.
  ghost predicate Closing(text: Text, spans: seq<FenceSpan>, end: nat, suffix: Text)
    requires 0 < end <= |text|
  {
    && (forall k :: 0 <= k < |spans| && Inside(spans[k], end) ==>
          suffix == (if text[end - 1] == NEWLINE then [] else [NEWLINE]) + (spans[k].indent + spans[k].marker))
    && ((forall k :: 0 <= k < |spans| ==> !Inside(spans[k], end)) ==> suffix == [])
  }

  lemma ReopenIsOpening(text: Text, spans: seq<FenceSpan>, end: nat)
    requires Usable(text, spans)
    ensures Opening(spans, end, ReopenPrefix(FenceAt(spans, end)))
  {
    forall k | 0 <= k < |spans| && Inside(spans[k], end) ensures FenceAt(spans, end) == Some(spans[k]) {
      InsideIsTheFence(text, spans, end, k);
    }
    if FenceAt(spans, end).Some? { assert Inside(FenceAt(spans, end).value, end); }
    hide FenceAt, Usable;
  }

  function ClosingLine(newline: bool, close: Option<FenceSpan>): Text {
    if close.None? then [] else (if newline then [] else [NEWLINE]) + CloseLine(close.value)
  }

  lemma ClosedAppends(raw: Text, close: Option<FenceSpan>)
    requires raw != []
    ensures Closed(raw, close) == raw + ClosingLine(raw[|raw| - 1] == NEWLINE, close)
  {
    if close.None? {
      assert raw + [] == raw;
    } else {
      var line := CloseLine(close.value);
      assert raw + ([NEWLINE] + line) == raw + [NEWLINE] + line && [] + line == line;
    }
  }

  lemma ClosingLineIsClosing(text: Text, spans: seq<FenceSpan>, end: nat)
    requires Usable(text, spans) && 0 < end <= |text|
    ensures Closing(text, spans, end, ClosingLine(text[end - 1] == NEWLINE, FenceAt(spans, end)))
  {
    forall k | 0 <= k < |spans| && Inside(spans[k], end) ensures FenceAt(spans, end) == Some(spans[k]) {
      InsideIsTheFence(text, spans, end, k);
    }
    if FenceAt(spans, end).Some? { assert Inside(FenceAt(spans, end).value, end); }
    hide FenceAt, Usable, Inside;
  }

  lemma NothingReopens()
    ensures ReopenPrefix(None) == []
  {
  }

  /**
   A chunk is its part of the text between two lines: in front, behind a break inside a fence,
   that fence's opening line; behind, at a break inside a fence, its indent and marker on a
   line of their own. Without a fence around the break there is no such line.
   */
  lemma ChunkIsItsPartBetweenLines(text: Text, limit: int, i: nat) returns (prefix: Text, suffix: Text)
    requires 0 < limit < |text| && i < |PiecesOf(text, limit)|
    ensures Slices(text, PiecesOf(text, limit)) && i < |ChunkMarkdown(text, limit)|
    ensures var pieces, spans := PiecesOf(text, limit), Spans(text);
            && ChunkMarkdown(text, limit)[i] == prefix + Raw(text, pieces[i]) + suffix
            && (if i == 0 then prefix == [] else Opening(spans, pieces[i - 1].end, prefix))
            && Closing(text, spans, pieces[i].end, suffix)
  {
    hide Spans, PiecesOf, ChunkMarkdown, FenceAt, NextStart, PieceEnd, Usable, Opening, Closing, Closed, ClosingLine;
    hide ReopenPrefix, AllSpace;
    var pieces, spans := PiecesOf(text, limit), Spans(text);
    var p := pieces[i];
    ChunksAreRenderings(text, limit, i);
    NthPiece(text, limit, i);
    prefix := ReopenPrefix(p.reopen);
    if i == 0 {
      NothingReopens();
    } else {
      NthPiece(text, limit, i - 1);
      ReopenIsOpening(text, spans, pieces[i - 1].end);
    }
    suffix := ClosingLine(text[p.end - 1] == NEWLINE, p.close);
    ClosingLineIsClosing(text, spans, p.end);
    ClosedAppends(prefix + Raw(text, p), p.close);
  }
}
