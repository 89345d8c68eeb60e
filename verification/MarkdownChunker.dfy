/**
 `chunkMarkdownText` with the loops of the source, proved to cut the text into exactly the
 pieces that `MarkdownPieces` specifies.
 */
module MarkdownChunker {
  import opened Optional
  import opened JsText
  import opened Fences
  import opened MarkdownPieces

  lemma FenceLinesAreLong(line: Text)
    requires MatchFence(line).Some?
    ensures |line| >= 3 && |MatchFence(line).value.marker| >= 3
  {
  }

  lemma SpansAreUsable(text: Text)
    ensures Usable(text, Spans(text))
  {
    hide Spans, MatchFence, EndsRight;
    var spans := Spans(text);
    SpansAreTheBlocks(text);
    forall i | 0 <= i < |spans|
      ensures spans[i].start + |spans[i].openLine| <= spans[i].end <= |text|
      ensures |spans[i].openLine| >= 3 && CloseLine(spans[i]) != []
      ensures text[spans[i].start..spans[i].start + |spans[i].openLine|] == spans[i].openLine
      ensures NEWLINE !in spans[i].openLine
    {
      assert StartsRight(text, spans[i]);
      FenceLinesAreLong(spans[i].openLine);
    }
  }

  function ChunkMarkdown(text: Text, limit: int): seq<Text> {
    if text == [] then []
    else if limit <= 0 || |text| <= limit then [text]
    else
      SpansAreUsable(text);
      PiecesAreSlices(text, limit, Spans(text), 0, None);
      Chunks(text, Pieces(text, limit, Spans(text), 0, None))
  }

  // `String.prototype.lastIndexOf`, which searches from the front when asked to start before it.
  function LastIndexOf(text: Text, u: CodeUnit, from: int): (i: int)
    ensures -1 <= i < |text| && i <= Max(from, 0) && (i >= 0 ==> text[i] == u)
    ensures forall j :: i < j < |text| && j <= Max(from, 0) ==> text[j] != u
    decreases Max(from, 0)
  {
    if text == [] then -1
    else if from >= |text| then LastIndexOf(text, u, |text| - 1)
    else if from <= 0 then (if text[0] == u then 0 else -1)
    else if text[from] == u then from
    else LastIndexOf(text, u, from - 1)
  }

  method SkipLeadingNewlines(value: Text, start: nat) returns (i: nat)
    requires start <= |value|
    ensures i == SkipNewlines(value, start)
  {
    i := start;
    while i < |value| && value[i] == NEWLINE
      invariant start <= i <= |value| && SkipNewlines(value, i) == SkipNewlines(value, start)
    {
      i := i + 1;
    }
  }

  method ScanParenAwareBreakpoints(text: Text, start: nat, end: nat, spans: seq<FenceSpan>)
    returns (lastNewline: int, lastWhitespace: int)
    requires start <= end <= |text| && Usable(text, spans)
    ensures lastNewline == ScanTo(text, spans, start, end).lastNewline
    ensures lastWhitespace == ScanTo(text, spans, start, end).lastWhitespace
  {
    lastNewline := -1;
    lastWhitespace := -1;
    var depth: nat := 0;
    for i := start to end
      invariant Scan(lastNewline, lastWhitespace, depth) == ScanTo(text, spans, start, i)
    {
      var fence := FindFenceSpanAt(spans, i);
      if fence.Some? {
        continue;
      }
      var char_ := text[i];
      if char_ == OPEN_PAREN {
        depth := depth + 1;
        continue;
      }
      if char_ == CLOSE_PAREN && depth > 0 {
        depth := depth - 1;
        continue;
      }
      if depth != 0 {
        continue;
      }
      if char_ == NEWLINE {
        lastNewline := i;
      } else if IsSpace(char_) {
        lastWhitespace := i;
      }
    }
  }

  method PickSafeBreakIndex(text: Text, start: nat, end: nat, spans: seq<FenceSpan>) returns (b: int)
    requires start <= end <= |text| && Usable(text, spans)
    ensures b == SoftBreak(text, spans, start, end)
  {
    var lastNewline, lastWhitespace := ScanParenAwareBreakpoints(text, start, end, spans);
    if lastNewline > start {
      return lastNewline;
    }
    if lastWhitespace > start {
      return lastWhitespace;
    }
    return -1;
  }

  /** The break chosen for a fence always lies inside that same fence. */
  lemma FenceBreakStaysInside(text: Text, spans: seq<FenceSpan>, start: nat, contentLimit: nat, span: FenceSpan)
    requires Usable(text, spans) && contentLimit >= 1
    requires FenceAt(spans, start + contentLimit) == Some(span)
    ensures CloseLine(span) != []
    ensures FenceAt(spans, FenceBreak(text, spans, start, contentLimit, span)) == Some(span)
  {
    var i :| 0 <= i < |spans| && spans[i] == span;
    var b := FenceBreak(text, spans, start, contentLimit, span);
    assert Inside(span, start + contentLimit) && Inside(span, b);
    FenceAtIsUnique(spans, b, i);
  }

  // The search for the last newline at which the fence can be closed.
  method FindCandidate(text: Text, spans: seq<FenceSpan>, start: nat, span: FenceSpan, minProgress: nat, maxIdx: nat)
    returns (picked: bool, b: nat)
    requires Usable(text, spans) && start < maxIdx < |text| && minProgress >= 2 && minProgress > start
    ensures picked ==> minProgress <= b <= maxIdx && b == LastCandidate(text, spans, span, minProgress, maxIdx)
    ensures !picked ==> minProgress > maxIdx || LastCandidate(text, spans, span, minProgress, maxIdx) < minProgress
  {
    hide LastIndexOf, LastCandidate, FenceAt;
    picked, b := false, 0;
    var lastNewline := LastIndexOf(text, NEWLINE, Max(start, maxIdx - 1));
    while lastNewline >= start
      invariant -1 <= lastNewline < maxIdx
      invariant lastNewline >= 0 ==> text[lastNewline] == NEWLINE
      invariant forall c :: lastNewline + 1 < c <= maxIdx ==> !Candidate(text, spans, span, c)
      decreases lastNewline
    {
      var candidateBreak := lastNewline + 1;
      if candidateBreak < minProgress {
        break;
      }
      var candidateFence := FindFenceSpanAt(spans, candidateBreak);
      if candidateFence.Some? && candidateFence.value.start == span.start {
        assert Candidate(text, spans, span, candidateBreak);
        return true, candidateBreak;
      }
      lastNewline := LastIndexOf(text, NEWLINE, lastNewline - 1);
    }
  }

  // The branch for a hard break that falls inside a fence.
  method BreakInsideFence(text: Text, spans: seq<FenceSpan>, start: nat, contentLimit: nat, initialFence: FenceSpan)
    returns (breakIdx: nat, fenceToSplit: Option<FenceSpan>)
    requires Usable(text, spans) && contentLimit >= 1 && start + contentLimit < |text|
    requires FenceAt(spans, start + contentLimit) == Some(initialFence)
    ensures CloseLine(initialFence) != [] && breakIdx == FenceBreak(text, spans, start, contentLimit, initialFence)
    ensures fenceToSplit == FenceAt(spans, breakIdx)
  {
    hide LastCandidate, FenceAt;
    FenceBreakStaysInside(text, spans, start, contentLimit, initialFence);
    var windowEnd := start + contentLimit;
    breakIdx := windowEnd;
    var closeLine := CloseLine(initialFence);
    var maxIdxIfNeedNewline := start + (contentLimit - (|closeLine| + 1));
    if maxIdxIfNeedNewline <= start {
      breakIdx := windowEnd;
    } else {
      var uncapped := Max(start + 1, initialFence.start + |initialFence.openLine| + 2);
      var minProgressIdx := if |text| < uncapped then |text| else uncapped;
      var maxIdxIfAlreadyNewline := start + (contentLimit - |closeLine|);
      var pickedNewline, candidate :=
        FindCandidate(text, spans, start, initialFence, minProgressIdx, maxIdxIfAlreadyNewline);
      if pickedNewline {
        breakIdx := candidate;
      } else if minProgressIdx > maxIdxIfAlreadyNewline {
        breakIdx := windowEnd;
      } else {
        breakIdx := Max(minProgressIdx, maxIdxIfNeedNewline);
      }
    }
    var fenceAtBreak := FindFenceSpanAt(spans, breakIdx);
    fenceToSplit :=
      if fenceAtBreak.Some? && fenceAtBreak.value.start == initialFence.start then fenceAtBreak else None;
  }

  // One round of the loop that ends in a break: where it breaks and which fence it closes.
  method ChooseBreak(text: Text, spans: seq<FenceSpan>, start: nat, contentLimit: nat)
    returns (breakIdx: nat, fenceToSplit: Option<FenceSpan>)
    requires Usable(text, spans) && contentLimit >= 1 && start + contentLimit < |text|
    ensures breakIdx == PieceEnd(text, spans, start, contentLimit)
    ensures fenceToSplit == FenceAt(spans, breakIdx)
  {
    var windowEnd := start + contentLimit;
    var softBreak := PickSafeBreakIndex(text, start, windowEnd, spans);
    breakIdx := if softBreak > start then softBreak else windowEnd;
    var initialFence := FindFenceSpanAt(spans, breakIdx);
    fenceToSplit := initialFence;
    if initialFence.Some? {
      if softBreak > start { SoftBreaksAreSafe(text, spans, start, windowEnd); }
      breakIdx, fenceToSplit := BreakInsideFence(text, spans, start, contentLimit, initialFence.value);
    }
  }

  /** A soft break is white space outside every fence. */
  lemma {:induction false} SoftBreaksAreSafe(text: Text, spans: seq<FenceSpan>, start: nat, end: nat)
    requires start <= end <= |text|
    ensures var s := ScanTo(text, spans, start, end);
            && (s.lastNewline >= 0 ==> start <= s.lastNewline && FenceAt(spans, s.lastNewline) == None
                                       && text[s.lastNewline] == NEWLINE)
            && (s.lastWhitespace >= 0 ==> start <= s.lastWhitespace && FenceAt(spans, s.lastWhitespace) == None
                                          && IsSpace(text[s.lastWhitespace]))
    ensures ScanTo(text, spans, start, end).lastNewline >= -1 && ScanTo(text, spans, start, end).lastWhitespace >= -1
    decreases end
  {
    if start < end { SoftBreaksAreSafe(text, spans, start, end - 1); }
  }

  // What the chunks from `start` on are, put behind those already cut.
  ghost function Cut(
    chunks: seq<Text>, text: Text, limit: int, spans: seq<FenceSpan>, start: nat, reopen: Option<FenceSpan>): seq<Text>
    requires Usable(text, spans) && start <= |text|
  {
    PiecesAreSlices(text, limit, spans, start, reopen);
    chunks + Chunks(text, Pieces(text, limit, spans, start, reopen))
  }

  lemma CutOne(chunks: seq<Text>, text: Text, limit: int, spans: seq<FenceSpan>, start: nat, reopen: Option<FenceSpan>)
    requires Usable(text, spans) && start < |text| && |text| - start > ContentLimit(limit, reopen)
    ensures var end := PieceEnd(text, spans, start, ContentLimit(limit, reopen));
            var close := FenceAt(spans, end);
            var next := NextStart(text, end, close);
            (Cut(chunks, text, limit, spans, start, reopen)
             == Cut(chunks + [Chunk(text, Piece(start, end, next, reopen, close))], text, limit, spans, next, close))
  {
    var end := PieceEnd(text, spans, start, ContentLimit(limit, reopen));
    var close := FenceAt(spans, end);
    var next := NextStart(text, end, close);
    var piece, rest := Piece(start, end, next, reopen, close), Pieces(text, limit, spans, next, close);
    PiecesAreSlices(text, limit, spans, start, reopen);
    PiecesAreSlices(text, limit, spans, next, close);
    assert ([piece] + rest)[1..] == rest;
    assert chunks + ([Chunk(text, piece)] + Chunks(text, rest)) == chunks + [Chunk(text, piece)] + Chunks(text, rest);
  }

  lemma CutLast(chunks: seq<Text>, text: Text, limit: int, spans: seq<FenceSpan>, start: nat, reopen: Option<FenceSpan>)
    requires Usable(text, spans) && start < |text| && |text| - start <= ContentLimit(limit, reopen)
    ensures Cut(chunks, text, limit, spans, start, reopen) == chunks + [ReopenPrefix(reopen) + text[start..]]
  {
    var piece := Piece(start, |text|, |text|, reopen, None);
    assert text[start..|text|] == text[start..];
    assert Chunks(text, [piece]) == [Chunk(text, piece)] + Chunks(text, [piece][1..]) == [Chunk(text, piece)];
  }

  lemma CutAll(text: Text, limit: int)
    requires 0 < limit < |text|
    ensures Usable(text, Spans(text)) && Cut([], text, limit, Spans(text), 0, None) == ChunkMarkdown(text, limit)
  {
    SpansAreUsable(text);
    PiecesAreSlices(text, limit, Spans(text), 0, None);
    var chunks := Chunks(text, Pieces(text, limit, Spans(text), 0, None));
    assert [] + chunks == chunks;
  }

  // The body of the loop behind the choice of the break.
  method CloseChunk(
    text: Text, start: nat, breakIdx: nat, reopenFence: Option<FenceSpan>, fenceToSplit: Option<FenceSpan>)
    returns (rawChunk: Text, nextStart: nat)
    requires start < breakIdx <= |text|
    ensures rawChunk == Chunk(text, Piece(start, breakIdx, nextStart, reopenFence, fenceToSplit))
    ensures nextStart == NextStart(text, breakIdx, fenceToSplit)
  {
    var reopenPrefix := if reopenFence.Some? then reopenFence.value.openLine + [NEWLINE] else [];
    rawChunk := reopenPrefix + text[start..breakIdx];
    var brokeOnSeparator := breakIdx < |text| && IsSpace(text[breakIdx]);
    nextStart := if brokeOnSeparator then breakIdx + 1 else breakIdx;
    if fenceToSplit.Some? {
      var closeLine := CloseLine(fenceToSplit.value);
      if rawChunk[|rawChunk| - 1] == NEWLINE {
        rawChunk := rawChunk + closeLine;
      } else {
        rawChunk := rawChunk + [NEWLINE] + closeLine;
      }
    } else {
      nextStart := SkipLeadingNewlines(text, nextStart);
    }
  }

  // One round of the loop that ends in a break.
  method CutChunk(
    chunks: seq<Text>, text: Text, limit: int, spans: seq<FenceSpan>, start: nat, reopenFence: Option<FenceSpan>)
    returns (chunks': seq<Text>, nextStart: nat, fenceToSplit: Option<FenceSpan>)
    requires Usable(text, spans) && start < |text| && |text| - start > ContentLimit(limit, reopenFence)
    ensures start < nextStart <= |text|
    ensures Cut(chunks', text, limit, spans, nextStart, fenceToSplit)
         == Cut(chunks, text, limit, spans, start, reopenFence)
  {
    hide Cut, PieceEnd, FenceAt, NextStart, Usable;
    CutOne(chunks, text, limit, spans, start, reopenFence);
    var contentLimit := Max(1, limit - |ReopenPrefix(reopenFence)|);
    var breakIdx;
    breakIdx, fenceToSplit := ChooseBreak(text, spans, start, contentLimit);
    var rawContent := text[start..breakIdx];
    if |rawContent| == 0 {
      assert false;
    }
    var rawChunk;
    rawChunk, nextStart := CloseChunk(text, start, breakIdx, reopenFence, fenceToSplit);
    chunks' := chunks + [rawChunk];
  }

  method ChunkMarkdownText(text: Text, limit: int) returns (chunks: seq<Text>)
    ensures chunks == ChunkMarkdown(text, limit)
  {
    if |text| == 0 {
      return [];
    }
    if limit <= 0 || |text| <= limit {
      return [text];
    }
    hide Cut, Spans, Usable, ChunkMarkdown;
    chunks := [];
    var spans := ParseFenceSpans(text);
    CutAll(text, limit);
    var start := 0;
    var reopenFence: Option<FenceSpan> := None;
    while start < |text|
      invariant 0 <= start <= |text|
      invariant Cut(chunks, text, limit, spans, start, reopenFence) == ChunkMarkdown(text, limit)
      decreases |text| - start
    {
      var reopenPrefix := ReopenPrefix(reopenFence);
      var contentLimit := Max(1, limit - |reopenPrefix|);
      if |text| - start <= contentLimit {
        CutLast(chunks, text, limit, spans, start, reopenFence);
        var finalChunk := reopenPrefix + text[start..];
        if |finalChunk| > 0 {
          chunks := chunks + [finalChunk];
        }
        return;
      }
      chunks, start, reopenFence := CutChunk(chunks, text, limit, spans, start, reopenFence);
    }
    CutNothing(chunks, text, limit, spans, reopenFence);
  }

  lemma CutNothing(chunks: seq<Text>, text: Text, limit: int, spans: seq<FenceSpan>, reopen: Option<FenceSpan>)
    requires Usable(text, spans)
    ensures Cut(chunks, text, limit, spans, |text|, reopen) == chunks
  {
    assert Pieces(text, limit, spans, |text|, reopen) == [];
    assert chunks + [] == chunks;
  }
}
