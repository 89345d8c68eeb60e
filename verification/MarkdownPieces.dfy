/**
 The fence-aware Markdown chunker as a function from text to pieces. A piece is a slice of
 the text with the fence that its chunk reopens, the fence that it closes, and the start of
 the next piece; the chunk is the slice between the reopening and the closing line.
 */
module MarkdownPieces {
  import opened Optional
  import opened JsText
  import opened Fences

  datatype Piece = Piece(start: nat, end: nat, next: nat, reopen: Option<FenceSpan>, close: Option<FenceSpan>)

  function Max(a: int, b: int): int {
    if a > b then a else b
  }

  // ---------------------------------------------------------------- chunks

  function ReopenPrefix(reopen: Option<FenceSpan>): Text {
    if reopen.Some? then reopen.value.openLine + [NEWLINE] else []
  }

  function CloseLine(span: FenceSpan): Text {
    span.indent + span.marker
  }

  function Closed(raw: Text, close: Option<FenceSpan>): Text {
    if close.None? then raw
    else if raw != [] && raw[|raw| - 1] == NEWLINE then raw + CloseLine(close.value)
    else raw + [NEWLINE] + CloseLine(close.value)
  }

  function Raw(text: Text, piece: Piece): Text
    requires piece.start <= piece.end <= |text|
  {
    text[piece.start..piece.end]
  }

  function Chunk(text: Text, piece: Piece): Text
    requires piece.start <= piece.end <= |text|
  {
    Closed(ReopenPrefix(piece.reopen) + Raw(text, piece), piece.close)
  }

  // ---------------------------------------------------------------- soft breaks

  datatype Scan = Scan(lastNewline: int, lastWhitespace: int, depth: nat)

  // The paren-aware scan of text[start..end], skipping what lies inside fences.
  function ScanTo(text: Text, spans: seq<FenceSpan>, start: nat, end: nat): (s: Scan)
    requires start <= end <= |text|
    ensures s.lastNewline < end && s.lastWhitespace < end
    decreases end
  {
    if end == start then Scan(-1, -1, 0)
    else
      var s, i := ScanTo(text, spans, start, end - 1), end - 1;
      if FenceAt(spans, i).Some? then s
      else if text[i] == OPEN_PAREN then s.(depth := s.depth + 1)
      else if text[i] == CLOSE_PAREN && s.depth > 0 then s.(depth := s.depth - 1)
      else if s.depth != 0 then s
      else if text[i] == NEWLINE then s.(lastNewline := i)
      else if IsSpace(text[i]) then s.(lastWhitespace := i)
      else s
  }

  function SoftBreak(text: Text, spans: seq<FenceSpan>, start: nat, end: nat): (b: int)
    requires start <= end <= |text|
    ensures b < end
  {
    var s := ScanTo(text, spans, start, end);
    if s.lastNewline > start then s.lastNewline
    else if s.lastWhitespace > start then s.lastWhitespace
    else -1
  }

  // ---------------------------------------------------------------- breaks inside a fence

  predicate SameFence(found: Option<FenceSpan>, span: FenceSpan) {
    found.Some? && found.value.start == span.start
  }

  // A line start inside the fence, where its closing line needs no newline before it.
  predicate Candidate(text: Text, spans: seq<FenceSpan>, span: FenceSpan, b: int) {
    0 < b <= |text| && text[b - 1] == NEWLINE && SameFence(FenceAt(spans, b), span)
  }

  // The last candidate in lo..hi, or lo - 1.
  function LastCandidate(text: Text, spans: seq<FenceSpan>, span: FenceSpan, lo: int, hi: int): (b: int)
    requires lo <= hi + 1
    ensures lo - 1 <= b <= hi && (b >= lo ==> Candidate(text, spans, span, b))
    ensures forall c :: b < c <= hi ==> !Candidate(text, spans, span, c)
    decreases hi + 1 - lo
  {
    if hi < lo || Candidate(text, spans, span, hi) then hi
    else LastCandidate(text, spans, span, lo, hi - 1)
  }

  // The first break that keeps the whole opening line and one more unit in the chunk.
  function MinProgress(start: nat, span: FenceSpan): nat {
    Max(start + 1, span.start + |span.openLine| + 2)
  }

  // Where to break a fence that the hard limit start + contentLimit would split.
  function FenceBreak(text: Text, spans: seq<FenceSpan>, start: nat, contentLimit: nat, span: FenceSpan): (b: nat)
    requires contentLimit >= 1 && CloseLine(span) != []
    ensures start < b <= start + contentLimit
  {
    var room := contentLimit - |CloseLine(span)|;
    var min := MinProgress(start, span);
    if room <= 1 || min > start + room then start + contentLimit
    else
      var candidate := LastCandidate(text, spans, span, min, start + room);
      if candidate >= min then candidate else Max(min, start + room - 1)
  }

  // ---------------------------------------------------------------- pieces

  ghost predicate Usable(text: Text, spans: seq<FenceSpan>) {
    && Ordered(spans)
    && forall i :: 0 <= i < |spans| ==>
         && spans[i].start + |spans[i].openLine| <= spans[i].end <= |text|
         && |spans[i].openLine| >= 3 && CloseLine(spans[i]) != []
         && text[spans[i].start..spans[i].start + |spans[i].openLine|] == spans[i].openLine
         && NEWLINE !in spans[i].openLine
  }

  function ContentLimit(limit: int, reopen: Option<FenceSpan>): (n: nat)
    ensures n >= 1
  {
    Max(1, limit - |ReopenPrefix(reopen)|)
  }

  function PieceEnd(text: Text, spans: seq<FenceSpan>, start: nat, contentLimit: nat): (b: nat)
    requires Usable(text, spans) && contentLimit >= 1 && start + contentLimit < |text|
    ensures start < b <= start + contentLimit
  {
    var soft := SoftBreak(text, spans, start, start + contentLimit);
    if soft > start then soft
    else match FenceAt(spans, start + contentLimit)
      case None => start + contentLimit
      case Some(span) => FenceBreak(text, spans, start, contentLimit, span)
  }

  function SkipNewlines(text: Text, start: nat): (i: nat)
    requires start <= |text|
    ensures start <= i <= |text| && forall j :: start <= j < i ==> text[j] == NEWLINE
    decreases |text| - start
  {
    if start < |text| && text[start] == NEWLINE then SkipNewlines(text, start + 1) else start
  }

  function NextStart(text: Text, end: nat, close: Option<FenceSpan>): (n: nat)
    requires end <= |text|
    ensures end <= n <= |text|
  {
    var behind := if end < |text| && IsSpace(text[end]) then end + 1 else end;
    if close.Some? then behind else SkipNewlines(text, behind)
  }

  function Pieces(text: Text, limit: int, spans: seq<FenceSpan>, start: nat, reopen: Option<FenceSpan>): seq<Piece>
    requires Usable(text, spans) && start <= |text|
    decreases |text| - start
  {
    var contentLimit := ContentLimit(limit, reopen);
    if start == |text| then []
    else if |text| - start <= contentLimit then [Piece(start, |text|, |text|, reopen, None)]
    else
      var end := PieceEnd(text, spans, start, contentLimit);
      var close := FenceAt(spans, end);
      var next := NextStart(text, end, close);
      [Piece(start, end, next, reopen, close)] + Pieces(text, limit, spans, next, close)
  }

  // Every piece is a proper slice of the text.
  predicate Slices(text: Text, pieces: seq<Piece>) {
    forall i :: 0 <= i < |pieces| ==> pieces[i].start < pieces[i].end <= pieces[i].next <= |text|
  }

  lemma {:induction false} PiecesAreSlices(
    text: Text, limit: int, spans: seq<FenceSpan>, start: nat, reopen: Option<FenceSpan>)
    requires Usable(text, spans) && start <= |text|
    ensures Slices(text, Pieces(text, limit, spans, start, reopen))
    decreases |text| - start
  {
    var contentLimit := ContentLimit(limit, reopen);
    if |text| - start > contentLimit {
      var end := PieceEnd(text, spans, start, contentLimit);
      var close := FenceAt(spans, end);
      PiecesAreSlices(text, limit, spans, NextStart(text, end, close), close);
    }
  }

  function Chunks(text: Text, pieces: seq<Piece>): seq<Text>
    requires Slices(text, pieces)
  {
    if pieces == [] then [] else [Chunk(text, pieces[0])] + Chunks(text, pieces[1..])
  }
}
