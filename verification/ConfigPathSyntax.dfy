/**
 The syntax of config paths: `parsePath` reads dots, brackets and backslash escapes,
 `toDotPath` writes dots only.
 */
module ConfigPathSyntax {
  import opened JsText

  datatype PathError = MissingBracket | EmptyBrackets

  datatype Result<+T> = Ok(value: T) | Err(error: PathError)

  // ---------------------------------------------------------------- specification

  function IndexOf(text: Text, u: CodeUnit): (i: nat)
    ensures i <= |text| && u !in text[..i] && (i < |text| ==> text[i] == u)
  {
    if text == [] || text[0] == u then 0
    else
      var i := IndexOf(text[1..], u);
      assert text[..i + 1] == [text[0]] + text[1..][..i];
      i + 1
  }

  function Push(part: Text, parts: Result<seq<Text>>): Result<seq<Text>> {
    match parts
    case Err(_) => parts
    case Ok(rest) => if part == [] then parts else Ok([part] + rest)
  }

  // The raw parts of what is left to read, `current` being the part under construction.
  function Scan(rest: Text, current: Text): Result<seq<Text>>
    decreases |rest|
  {
    if rest == [] then Push(current, Ok([]))
    else if rest[0] == BACKSLASH then
      if |rest| == 1 then Scan([], current) else Scan(rest[2..], current + [rest[1]])
    else if rest[0] == DOT then
      Push(current, Scan(rest[1..], []))
    else if rest[0] == OPEN_BRACKET then
      var close := IndexOf(rest, CLOSE_BRACKET);
      if close == |rest| then Err(MissingBracket)
      else if Trim(rest[1..close]) == [] then Err(EmptyBrackets)
      else Push(current, Push(Trim(rest[1..close]), Scan(rest[close + 1..], [])))
    else
      Scan(rest[1..], current + [rest[0]])
  }

  // `parts.map((part) => part.trim()).filter(Boolean)`
  function Clean(parts: seq<Text>): seq<Text> {
    if parts == [] then []
    else (if Trim(parts[0]) == [] then [] else [Trim(parts[0])]) + Clean(parts[1..])
  }

  function Parse(raw: Text): Result<seq<Text>> {
    match Scan(Trim(raw), [])
    case Err(e) => Err(e)
    case Ok(parts) => Ok(Clean(parts))
  }

  function ToDotPath(path: seq<Text>): Text {
    Join(path, [DOT])
  }

  // ---------------------------------------------------------------- the source's loop

  // The parts read so far put in front of those still to come.
  function Prepend(parts: seq<Text>, rest: Result<seq<Text>>): Result<seq<Text>> {
    match rest
    case Err(_) => rest
    case Ok(more) => Ok(parts + more)
  }

  lemma PrependPush(parts: seq<Text>, part: Text, rest: Result<seq<Text>>)
    ensures Prepend(parts, Push(part, rest)) == Prepend(if part == [] then parts else parts + [part], rest)
  {
    if rest.Ok? {
      assert parts + ([part] + rest.value) == parts + [part] + rest.value;
    }
  }

  lemma PrependNothing(rest: Result<seq<Text>>)
    ensures Prepend([], rest) == rest
  {
    assert rest.Ok? ==> [] + rest.value == rest.value;
  }

  lemma NothingParses(raw: Text)
    requires Trim(raw) == []
    ensures Parse(raw) == Ok([])
  {
    hide Trim;
  }

  lemma ScannedParses(raw: Text, scanned: Result<seq<Text>>)
    requires Scan(Trim(raw), []) == scanned
    ensures Parse(raw) == if scanned.Ok? then Ok(Clean(scanned.value)) else scanned
  {
    hide Trim, Scan, Clean;
  }

  lemma ReadUnit(rest: Text, current: Text)
    requires rest != [] && rest[0] != DOT && rest[0] != OPEN_BRACKET
    ensures Scan(rest, current) ==
      if rest[0] != BACKSLASH then Scan(rest[1..], current + [rest[0]])
      else if |rest| == 1 then Scan([], current)
      else Scan(rest[2..], current + [rest[1]])
  {
  }

  lemma ReadDot(parts: seq<Text>, current: Text, rest: Text)
    requires rest != [] && rest[0] == DOT
    ensures Prepend(parts, Scan(rest, current))
         == Prepend(if current == [] then parts else parts + [current], Scan(rest[1..], []))
  {
    PrependPush(parts, current, Scan(rest[1..], []));
  }

  lemma ReadBracket(parts: seq<Text>, current: Text, rest: Text)
    requires rest != [] && rest[0] == OPEN_BRACKET
    ensures var close := IndexOf(rest, CLOSE_BRACKET);
            Prepend(parts, Scan(rest, current)) ==
              if close == |rest| then Err(MissingBracket)
              else if Trim(rest[1..close]) == [] then Err(EmptyBrackets)
              else
                var before := if current == [] then parts else parts + [current];
                Prepend(before + [Trim(rest[1..close])], Scan(rest[close + 1..], []))
  {
    hide IndexOf, Trim;
    var close := IndexOf(rest, CLOSE_BRACKET);
    if close < |rest| {
      var inside, more := Trim(rest[1..close]), Scan(rest[close + 1..], []);
      PrependPush(parts, current, Push(inside, more));
      PrependPush(if current == [] then parts else parts + [current], inside, more);
    }
  }

  method ParsePath(raw: Text) returns (path: Result<seq<Text>>)
    ensures path == Parse(raw)
  {
    hide IndexOf, Trim, Scan, Prepend, Clean, Parse;
    var trimmed := Trim(raw);
    if |trimmed| == 0 {
      NothingParses(raw);
      return Ok([]);
    }
    var parts: seq<Text> := [];
    var current: Text := [];
    var i := 0;
    assert trimmed[0..] == trimmed;
    PrependNothing(Scan(trimmed, []));
    while i < |trimmed|
      invariant 0 <= i
      invariant Scan(trimmed, []) == Prepend(parts, Scan(if i <= |trimmed| then trimmed[i..] else [], current))
    {
      var ch := trimmed[i];
      ghost var rest := trimmed[i..];
      if ch == BACKSLASH {
        ReadUnit(rest, current);
        if i + 1 < |trimmed| {
          assert rest[2..] == trimmed[i + 2..];
          current := current + [trimmed[i + 1]];
        }
        i := i + 2;
        continue;
      }
      if ch == DOT {
        assert rest[1..] == trimmed[i + 1..];
        ReadDot(parts, current, rest);
        if |current| > 0 {
          parts := parts + [current];
        }
        current := [];
        i := i + 1;
        continue;
      }
      if ch == OPEN_BRACKET {
        ReadBracket(parts, current, rest);
        if |current| > 0 {
          parts := parts + [current];
        }
        var close := IndexOf(trimmed[i..], CLOSE_BRACKET);
        if i + close == |trimmed| {
          ScannedParses(raw, Err(MissingBracket));
          return Err(MissingBracket);
        }
        assert rest[1..close] == trimmed[i + 1..i + close] && rest[close + 1..] == trimmed[i + close + 1..];
        var inside := Trim(trimmed[i + 1..i + close]);
        if |inside| == 0 {
          ScannedParses(raw, Err(EmptyBrackets));
          return Err(EmptyBrackets);
        }
        current := [];
        parts := parts + [inside];
        i := i + close + 1;
        continue;
      }
      ReadUnit(rest, current);
      assert rest[1..] == trimmed[i + 1..];
      current := current + [ch];
      i := i + 1;
    }
    assert i == |trimmed| ==> trimmed[i..] == [];
    ReadEnd(parts, current);
    if |current| > 0 {
      parts := parts + [current];
    }
    ScannedParses(raw, Ok(parts));
    path := Ok(Clean(parts));
  }

  lemma ReadEnd(parts: seq<Text>, current: Text)
    ensures Prepend(parts, Scan([], current)) == Ok(if current == [] then parts else parts + [current])
  {
    assert parts + [] == parts && [current] + [] == [current];
  }

  // ---------------------------------------------------------------- printing and parsing

  predicate IsSpecial(u: CodeUnit) {
    u == BACKSLASH || u == DOT || u == OPEN_BRACKET
  }

  predicate Plain(text: Text) {
    forall i :: 0 <= i < |text| ==> !IsSpecial(text[i])
  }

  // What `parsePath` can return at all: nothing empty, nothing with outer white space.
  predicate Segment(text: Text) {
    text != [] && TrimStable(text)
  }

  predicate Segments(path: seq<Text>) {
    forall i :: 0 <= i < |path| ==> Segment(path[i])
  }

  predicate AllPlain(path: seq<Text>) {
    forall i :: 0 <= i < |path| ==> Plain(path[i])
  }

  lemma {:induction false} CleanGivesSegments(parts: seq<Text>)
    ensures Segments(Clean(parts))
    ensures Segments(parts) ==> Clean(parts) == parts
  {
    if parts != [] {
      CleanGivesSegments(parts[1..]);
      TrimIsStable(parts[0]);
      if Segments(parts) {
        assert Segment(parts[0]) && parts == [parts[0]] + parts[1..];
      }
    }
  }

  function Escape(text: Text): Text {
    if text == [] then []
    else (if IsSpecial(text[0]) then [BACKSLASH, text[0]] else [text[0]]) + Escape(text[1..])
  }

  function EscapeAll(path: seq<Text>): seq<Text> {
    if path == [] then [] else [Escape(path[0])] + EscapeAll(path[1..])
  }

  // The printer that `toDotPath` would be if it escaped.
  function ToEscapedPath(path: seq<Text>): Text {
    Join(EscapeAll(path), [DOT])
  }

  lemma ScanUnit(u: CodeUnit, tail: Text, current: Text)
    ensures Scan((if IsSpecial(u) then [BACKSLASH, u] else [u]) + tail, current) == Scan(tail, current + [u])
  {
    hide IndexOf, Trim;
    assert ([BACKSLASH, u] + tail)[2..] == tail && ([u] + tail)[1..] == tail;
  }

  // Reading an escaped text adds exactly that text to the current part, whatever follows.
  lemma {:induction false} ScanEscaped(text: Text, rest: Text, current: Text)
    ensures Scan(Escape(text) + rest, current) == Scan(rest, current + text)
  {
    hide Scan;
    if text == [] {
      assert Escape(text) + rest == rest && current + text == current;
    } else {
      var all, tail := Escape(text) + rest, Escape(text[1..]) + rest;
      assert current + [text[0]] + text[1..] == current + text;
      ScanEscaped(text[1..], rest, current + [text[0]]);
      if IsSpecial(text[0]) {
        assert all == [BACKSLASH, text[0]] + tail;
      } else {
        assert all == [text[0]] + tail;
      }
      ScanUnit(text[0], tail, current);
    }
  }

  lemma {:induction false} ScanEscapedPath(path: seq<Text>)
    requires Segments(path)
    ensures Scan(ToEscapedPath(path), []) == Ok(path)
  {
    if |path| == 1 {
      assert Segment(path[0]);
      assert Escape(path[0]) + [] == ToEscapedPath(path) && [] + path[0] == path[0];
      ScanEscaped(path[0], [], []);
      assert path == [path[0]] + [];
    } else if |path| > 1 {
      assert Segment(path[0]);
      var rest := [DOT] + ToEscapedPath(path[1..]);
      assert ToEscapedPath(path) == Escape(path[0]) + rest;
      assert rest[1..] == ToEscapedPath(path[1..]) && [] + path[0] == path[0];
      ScanEscaped(path[0], rest, []);
      ScanEscapedPath(path[1..]);
      assert path == [path[0]] + path[1..];
    }
  }

  lemma {:induction false} EscapedEnds(text: Text)
    requires text != []
    ensures Escape(text) != [] && Escape(text)[|Escape(text)| - 1] == text[|text| - 1]
    ensures IsSpace(Escape(text)[0]) ==> IsSpace(text[0])
  {
    if |text| > 1 { EscapedEnds(text[1..]); }
  }

  lemma {:induction false} EscapedPathIsStable(path: seq<Text>)
    requires Segments(path)
    ensures TrimStable(ToEscapedPath(path)) && (path != [] ==> ToEscapedPath(path) != [])
  {
    if path != [] {
      assert Segment(path[0]);
      EscapedEnds(path[0]);
      if |path| > 1 {
        EscapedPathIsStable(path[1..]);
        assert ToEscapedPath(path) == Escape(path[0]) + [DOT] + ToEscapedPath(path[1..]);
      }
    }
  }

  /** With escaping, a path survives printing and parsing exactly if its segments can be parsed at all. */
  lemma EscapedRoundTrip(path: seq<Text>)
    ensures Parse(ToEscapedPath(path)) == Ok(path) <==> Segments(path)
  {
    if Segments(path) {
      ScanEscapedPath(path);
      EscapedPathIsStable(path);
      TrimIsStable(ToEscapedPath(path));
      CleanGivesSegments(path);
    }
    var scanned := Scan(Trim(ToEscapedPath(path)), []);
    if scanned.Ok? { CleanGivesSegments(scanned.value); }
  }

  lemma {:induction false} PlainNeedsNoEscape(path: seq<Text>)
    requires AllPlain(path)
    ensures EscapeAll(path) == path
  {
    if path != [] {
      PlainTextNeedsNoEscape(path[0]);
      PlainNeedsNoEscape(path[1..]);
    }
  }

  lemma {:induction false} PlainTextNeedsNoEscape(text: Text)
    requires Plain(text)
    ensures Escape(text) == text
  {
    if text != [] {
      assert !IsSpecial(text[0]);
      PlainTextNeedsNoEscape(text[1..]);
    }
  }

  // ---------------------------------------------------------------- brackets and blanks

  /** A part is trimmed, and dropped if it is blank. */
  lemma CleanOne(part: Text)
    ensures Clean([part]) == if Blank(part) then [] else [Trim(part)]
  {
    TrimIsStable(part);
    assert [part][1..] == [] && [Trim(part)] + [] == [Trim(part)];
  }

  lemma {:induction false} CleanConcat(a: seq<Text>, b: seq<Text>)
    ensures Clean(a + b) == Clean(a) + Clean(b)
  {
    if a == [] {
      assert a + b == b && [] + Clean(b) == Clean(b);
    } else {
      assert (a + b)[1..] == a[1..] + b;
      CleanConcat(a[1..], b);
      var first := if Trim(a[0]) == [] then [] else [Trim(a[0])];
      assert first + (Clean(a[1..]) + Clean(b)) == first + Clean(a[1..]) + Clean(b);
    }
  }

  // A segment as it may stand in a path: in brackets, or escaped behind a dot.
  function Printed(segment: Text, bracket: bool, first: bool): Text {
    if bracket then [OPEN_BRACKET] + segment + [CLOSE_BRACKET]
    else (if first then [] else [DOT]) + Escape(segment)
  }

  function ToMixedPath(path: seq<Text>, brackets: seq<bool>, first: bool): Text
    requires |path| == |brackets|
  {
    if path == [] then [] else Printed(path[0], brackets[0], first) + ToMixedPath(path[1..], brackets[1..], false)
  }

  ghost predicate Bracketable(path: seq<Text>, brackets: seq<bool>)
    requires |path| == |brackets|
  {
    forall i :: 0 <= i < |path| && brackets[i] ==> CLOSE_BRACKET !in path[i]
  }

  lemma {:induction false} IndexOfIs(text: Text, u: CodeUnit, i: nat)
    requires i <= |text| && u !in text[..i] && (i < |text| ==> text[i] == u)
    ensures IndexOf(text, u) == i
  {
    if i > 0 {
      assert text[..i] == [text[0]] + text[1..][..i - 1];
      IndexOfIs(text[1..], u, i - 1);
    }
  }

  lemma IndexOfClose(inside: Text, rest: Text)
    requires CLOSE_BRACKET !in inside
    ensures IndexOf([OPEN_BRACKET] + inside + [CLOSE_BRACKET] + rest, CLOSE_BRACKET) == |inside| + 1
    ensures IndexOf([OPEN_BRACKET] + inside, CLOSE_BRACKET) == |inside| + 1
  {
    var open := [OPEN_BRACKET] + inside;
    var all := open + [CLOSE_BRACKET] + rest;
    assert all[..|inside| + 1] == open && open[..|inside| + 1] == open;
    IndexOfIs(all, CLOSE_BRACKET, |inside| + 1);
    IndexOfIs(open, CLOSE_BRACKET, |inside| + 1);
  }

  // Reading a bracketed segment ends the current part and adds the trimmed segment.
  lemma ScanBracketed(inside: Text, rest: Text, current: Text)
    requires CLOSE_BRACKET !in inside && !Blank(inside)
    ensures Scan([OPEN_BRACKET] + inside + [CLOSE_BRACKET] + rest, current)
         == Push(current, Push(Trim(inside), Scan(rest, [])))
  {
    hide IndexOf, Trim;
    var all, close := [OPEN_BRACKET] + inside + [CLOSE_BRACKET] + rest, |inside| + 1;
    IndexOfClose(inside, rest);
    TrimIsStable(inside);
    assert all[1..close] == inside && all[close + 1..] == rest;
  }

  // What stands behind a segment is read as the end of that segment.
  lemma {:induction false} ScanMixed(path: seq<Text>, brackets: seq<bool>, current: Text)
    requires |path| == |brackets| && Segments(path) && Bracketable(path, brackets)
    ensures Scan(ToMixedPath(path, brackets, false), current) == Push(current, Ok(path))
    decreases |path|
  {
    hide IndexOf, Trim, Escape;
    if path != [] {
      var segment, rest := path[0], ToMixedPath(path[1..], brackets[1..], false);
      assert Segment(segment) && path == [segment] + path[1..];
      TrimIsStable(segment);
      if brackets[0] {
        ScanMixed(path[1..], brackets[1..], []);
        SegmentIsNotBlank(segment);
        ScanBracketed(segment, rest, current);
      } else {
        ScanMixed(path[1..], brackets[1..], segment);
        var all := [DOT] + Escape(segment) + rest;
        assert all[1..] == Escape(segment) + rest && [] + segment == segment;
        ScanEscaped(segment, rest, []);
      }
    }
  }

  lemma SegmentIsNotBlank(segment: Text)
    requires Segment(segment)
    ensures !Blank(segment) && Trim(segment) == segment
  {
    assert segment[0] in segment;
    TrimIsStable(segment);
  }

  lemma PrintedEnds(segment: Text, bracket: bool, first: bool)
    requires Segment(segment)
    ensures var text := Printed(segment, bracket, first);
            text != [] && !IsSpace(text[0]) && !IsSpace(text[|text| - 1])
  {
    EscapedEnds(segment);
    hide Escape;
  }

  lemma {:induction false} MixedPathEnds(path: seq<Text>, brackets: seq<bool>, first: bool)
    requires |path| == |brackets| && Segments(path) && path != []
    ensures var text := ToMixedPath(path, brackets, first);
            text != [] && !IsSpace(text[0]) && !IsSpace(text[|text| - 1])
    decreases |path|
  {
    hide Printed, IsSpace;
    assert Segment(path[0]);
    PrintedEnds(path[0], brackets[0], first);
    var rest := ToMixedPath(path[1..], brackets[1..], false);
    if |path| > 1 {
      MixedPathEnds(path[1..], brackets[1..], false);
    } else {
      assert rest == [] && Printed(path[0], brackets[0], first) + [] == Printed(path[0], brackets[0], first);
    }
  }

  // The first segment stands behind no dot.
  lemma ScanMixedPath(path: seq<Text>, brackets: seq<bool>)
    requires |path| == |brackets| && Segments(path) && Bracketable(path, brackets) && path != []
    ensures Scan(ToMixedPath(path, brackets, true), []) == Ok(path)
  {
    hide IndexOf, Trim, Escape, Scan;
    var segment, rest := path[0], ToMixedPath(path[1..], brackets[1..], false);
    assert Segment(segment) && path == [segment] + path[1..];
    SegmentIsNotBlank(segment);
    if brackets[0] {
      ScanMixed(path[1..], brackets[1..], []);
      ScanBracketed(segment, rest, []);
    } else {
      ScanMixed(path[1..], brackets[1..], segment);
      assert [] + Escape(segment) + rest == Escape(segment) + rest && [] + segment == segment;
      ScanEscaped(segment, rest, []);
    }
  }

  /** Whatever segments are written in brackets and whichever escaped, the path is read back. */
  lemma MixedRoundTrip(path: seq<Text>, brackets: seq<bool>)
    requires |path| == |brackets| && Segments(path) && Bracketable(path, brackets)
    ensures Parse(ToMixedPath(path, brackets, true)) == Ok(path)
  {
    if path != [] {
      MixedPathEnds(path, brackets, true);
      ScanMixedPath(path, brackets);
    }
    TrimIsStable(ToMixedPath(path, brackets, true));
    CleanGivesSegments(path);
    hide Trim, Clean;
  }

  lemma StableParses(text: Text)
    requires TrimStable(text)
    ensures Scan(text, []).Err? ==> Parse(text) == Scan(text, [])
  {
    TrimIsStable(text);
    hide Trim, Scan, Clean;
  }

  /** A bracket that is never closed is an error. */
  lemma OpenBracketIsError(front: Text, inside: Text)
    requires CLOSE_BRACKET !in inside && TrimStable(Escape(front) + ([OPEN_BRACKET] + inside))
    ensures Parse(Escape(front) + ([OPEN_BRACKET] + inside)) == Err(MissingBracket)
  {
    hide IndexOf, Trim, Escape, Parse;
    StableParses(Escape(front) + ([OPEN_BRACKET] + inside));
    ScanEscaped(front, [OPEN_BRACKET] + inside, []);
    IndexOfClose(inside, []);
  }

  /** A bracket with nothing but white space in it is an error, whatever follows. */
  lemma BlankBracketIsError(front: Text, inside: Text, rest: Text)
    requires CLOSE_BRACKET !in inside && Blank(inside)
    requires TrimStable(Escape(front) + ([OPEN_BRACKET] + inside + [CLOSE_BRACKET] + rest))
    ensures Parse(Escape(front) + ([OPEN_BRACKET] + inside + [CLOSE_BRACKET] + rest)) == Err(EmptyBrackets)
  {
    var bracket := [OPEN_BRACKET] + inside + [CLOSE_BRACKET] + rest;
    TrimIsStable(inside);
    hide IndexOf, Trim, Escape, Parse;
    StableParses(Escape(front) + bracket);
    ScanEscaped(front, bracket, []);
    IndexOfClose(inside, rest);
    assert bracket[1..|inside| + 1] == inside;
  }

  /** Dots with nothing between them separate no part, and a backslash at the very end is dropped. */
  lemma EmptyPartsVanish(front: Text, rest: Text)
    ensures Scan([DOT] + rest, []) == Scan(rest, [])
    ensures Scan(Escape(front) + [BACKSLASH], []) == Scan(Escape(front), [])
  {
    assert ([DOT] + rest)[1..] == rest;
    ScanEscaped(front, [BACKSLASH], []);
    ScanEscaped(front, [], []);
    assert Escape(front) + [] == Escape(front);
  }

  // ---------------------------------------------------------------- what a dot path can say

  function Weight(parts: seq<Text>): nat {
    if parts == [] then 0 else |parts[0]| + 1 + Weight(parts[1..])
  }

  lemma {:induction false} JoinWeight(parts: seq<Text>)
    ensures |Join(parts, [DOT])| == if parts == [] then 0 else Weight(parts) - 1
  {
    if |parts| > 1 { JoinWeight(parts[1..]); }
  }

  lemma {:induction false} TrimShortens(text: Text)
    ensures |Trim(text)| <= |text| && (|Trim(text)| == |text| ==> Trim(text) == text)
  {
    TrimStartShortens(text);
    TrimEndShortens(TrimStart(text));
  }

  lemma {:induction false} TrimStartShortens(text: Text)
    ensures |TrimStart(text)| <= |text| && (|TrimStart(text)| == |text| ==> TrimStart(text) == text)
  {
    if text != [] && IsSpace(text[0]) { TrimStartShortens(text[1..]); }
  }

  lemma {:induction false} TrimEndShortens(text: Text)
    ensures |TrimEnd(text)| <= |text| && (|TrimEnd(text)| == |text| ==> TrimEnd(text) == text)
  {
    if text != [] && IsSpace(text[|text| - 1]) { TrimEndShortens(text[..|text| - 1]); }
  }

  lemma {:induction false} CleanShortens(parts: seq<Text>)
    ensures Weight(Clean(parts)) <= Weight(parts)
    ensures Weight(Clean(parts)) == Weight(parts) ==> Clean(parts) == parts
  {
    if parts != [] {
      TrimShortens(parts[0]);
      CleanShortens(parts[1..]);
      assert parts == [parts[0]] + parts[1..];
      if Trim(parts[0]) != [] {
        assert Clean(parts)[1..] == Clean(parts[1..]);
      } else {
        assert [] + Clean(parts[1..]) == Clean(parts[1..]);
      }
    }
  }

  // Parts never outweigh the text they were read from; an escape makes them lighter.
  lemma {:induction false} ScanWeight(rest: Text, current: Text)
    requires Scan(rest, current).Ok?
    ensures Weight(Scan(rest, current).value) <= |current| + |rest| + 1
    ensures rest != [] && rest[0] == BACKSLASH ==> Weight(Scan(rest, current).value) <= |current| + |rest|
    decreases |rest|
  {
    if rest == [] {
    } else if rest[0] == BACKSLASH {
      if |rest| > 1 { ScanWeight(rest[2..], current + [rest[1]]); }
    } else if rest[0] == DOT {
      ScanWeight(rest[1..], []);
    } else if rest[0] == OPEN_BRACKET {
      var close := IndexOf(rest, CLOSE_BRACKET);
      var inside, more := Trim(rest[1..close]), Scan(rest[close + 1..], []);
      TrimShortens(rest[1..close]);
      ScanWeight(rest[close + 1..], []);
      var parts := [inside] + more.value;
      assert parts[1..] == more.value && ([current] + parts)[1..] == parts;
    } else {
      ScanWeight(rest[1..], current + [rest[0]]);
    }
  }

  // Joining puts a dot where the bracket was, or falls short of the text.
  lemma BracketsDoNotJoin(rest: Text, current: Text)
    requires rest != [] && rest[0] == OPEN_BRACKET && Scan(rest, current).Ok?
    ensures Join(Scan(rest, current).value, [DOT]) != current + rest
  {
    hide IndexOf, Trim;
    var close := IndexOf(rest, CLOSE_BRACKET);
    var inside, more := Trim(rest[1..close]), Scan(rest[close + 1..], []).value;
    var parts := Scan(rest, current).value;
    if current == [] {
      TrimShortens(rest[1..close]);
      ScanWeight(rest[close + 1..], []);
      JoinWeight(parts);
      assert parts == [inside] + more && parts[1..] == more;
    } else {
      assert parts == [current] + ([inside] + more);
      assert Join(parts, [DOT])[|current|] == DOT;
      assert (current + rest)[|current|] == OPEN_BRACKET;
    }
  }

  // If joining the parts gives the text back, the text was read without escapes and brackets.
  lemma {:induction false} ScanExact(rest: Text, current: Text)
    requires Scan(rest, current).Ok? && Join(Scan(rest, current).value, [DOT]) == current + rest
    requires Plain(current)
    ensures AllPlain(Scan(rest, current).value)
    decreases |rest|
  {
    hide IndexOf, Trim;
    var parts := Scan(rest, current).value;
    JoinWeight(parts);
    ScanWeight(rest, current);
    if rest == [] {
    } else if rest[0] == DOT {
      var more := Scan(rest[1..], []).value;
      ScanWeight(rest[1..], []);
      if current != [] && more != [] {
        assert parts[1..] == more;
        assert (current + rest)[|current| + 1..] == rest[1..];
        assert Join(parts, [DOT])[|current| + 1..] == Join(more, [DOT]);
        assert [] + rest[1..] == rest[1..];
        ScanExact(rest[1..], []);
      }
    } else if rest[0] == OPEN_BRACKET {
      BracketsDoNotJoin(rest, current);
    } else if rest[0] != BACKSLASH {
      assert current + [rest[0]] + rest[1..] == current + rest;
      ScanExact(rest[1..], current + [rest[0]]);
    }
  }

  /**
   Without escaping, a path survives `toDotPath` and `parsePath` exactly if its segments can
   be parsed at all and hold no backslash, dot or opening bracket.
   */
  lemma DotPathRoundTrip(path: seq<Text>)
    ensures Parse(ToDotPath(path)) == Ok(path) <==> Segments(path) && AllPlain(path)
  {
    if Segments(path) && AllPlain(path) {
      PlainNeedsNoEscape(path);
      EscapedRoundTrip(path);
    }
    if Parse(ToDotPath(path)) == Ok(path) {
      var raw, trimmed := ToDotPath(path), Trim(ToDotPath(path));
      var parts := Scan(trimmed, []).value;
      CleanGivesSegments(parts);
      TrimShortens(raw);
      ScanWeight(trimmed, []);
      CleanShortens(parts);
      JoinWeight(path);
      if path != [] {
        assert trimmed == raw && parts == path;
        assert [] + raw == raw;
        ScanExact(raw, []);
      }
    }
  }
}
