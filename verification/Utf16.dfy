/**
 The surrogate-safe slicer. A surrogate pair is a high surrogate directly followed by a low
 one; well-formed text has no other surrogates (section 2 of RFC 2781).
 */
module Utf16 {
  import opened Optional
  import opened JsText

  predicate IsHighSurrogate(u: CodeUnit) {
    0xD800 <= u <= 0xDBFF
  }

  predicate IsLowSurrogate(u: CodeUnit) {
    0xDC00 <= u <= 0xDFFF
  }

  // Cutting the text at i would take a pair apart.
  predicate SplitsPair(input: Text, i: nat) {
    0 < i < |input| && IsHighSurrogate(input[i - 1]) && IsLowSurrogate(input[i])
  }

  ghost predicate WellFormed(input: Text) {
    forall i :: 0 <= i < |input| ==>
      && (IsHighSurrogate(input[i]) ==> SplitsPair(input, i + 1))
      && (IsLowSurrogate(input[i]) ==> SplitsPair(input, i))
  }

  // The index that a JavaScript slice argument denotes: negative ones count from the end.
  function Resolve(index: int, len: nat): (i: nat)
    ensures i <= len
  {
    if index < 0 then (if len + index > 0 then len + index else 0)
    else if index < len then index else len
  }

  // The range the caller asks for; swapped bounds are put in order.
  function Requested(input: Text, start: int, end: Option<int>): (r: (nat, nat))
    ensures r.0 <= r.1 <= |input|
  {
    var from := Resolve(start, |input|);
    var to := if end.None? then |input| else Resolve(end.value, |input|);
    if to < from then (to, from) else (from, to)
  }

  // [from, to) is inside [lo, hi) and takes no pair apart.
  predicate CleanRange(input: Text, lo: nat, hi: nat, from: nat, to: nat) {
    lo <= from <= to <= hi <= |input| && !SplitsPair(input, from) && !SplitsPair(input, to)
  }

  /** Cutting well-formed text leaves well-formed text exactly when no end takes a pair apart. */
  lemma CleanCutsAreWellFormed(input: Text, from: nat, to: nat)
    requires WellFormed(input) && from < to <= |input|
    ensures WellFormed(input[from..to]) <==> !SplitsPair(input, from) && !SplitsPair(input, to)
  {
    var part := input[from..to];
    if SplitsPair(input, from) {
      assert IsLowSurrogate(part[0]) && !SplitsPair(part, 0);
    } else if SplitsPair(input, to) {
      assert IsHighSurrogate(part[to - from - 1]) && !SplitsPair(part, to - from);
    } else {
      forall i | 0 <= i < |part|
        ensures IsHighSurrogate(part[i]) ==> SplitsPair(part, i + 1)
        ensures IsLowSurrogate(part[i]) ==> SplitsPair(part, i)
      {
        assert IsHighSurrogate(input[from + i]) ==> SplitsPair(input, from + i + 1);
        assert IsLowSurrogate(input[from + i]) ==> SplitsPair(input, from + i);
      }
    }
  }

  // `cut` is empty or a clean part of `range`, and covers every clean part that is not empty.
  ghost predicate LargestClean(input: Text, range: (nat, nat), cut: (nat, nat)) {
    && (cut.0 == cut.1 || CleanRange(input, range.0, range.1, cut.0, cut.1))
    && (forall a: nat, b: nat :: a < b && CleanRange(input, range.0, range.1, a, b) ==> cut.0 <= a && b <= cut.1)
  }

  lemma LargestIsWellFormed(input: Text, range: (nat, nat), cut: (nat, nat))
    requires WellFormed(input) && cut.0 <= cut.1 <= |input| && range.1 <= |input| && LargestClean(input, range, cut)
    ensures WellFormed(input[cut.0..cut.1])
    ensures forall a: nat, b: nat :: range.0 <= a < b <= range.1 && WellFormed(input[a..b]) ==> cut.0 <= a && b <= cut.1
  {
    if cut.0 < cut.1 {
      CleanCutsAreWellFormed(input, cut.0, cut.1);
    }
    forall a: nat, b: nat | range.0 <= a < b <= range.1 && WellFormed(input[a..b]) ensures cut.0 <= a && b <= cut.1 {
      CleanCutsAreWellFormed(input, a, b);
      assert CleanRange(input, range.0, range.1, a, b);
    }
  }

  predicate IsPart(input: Text, cut: (nat, nat), part: Text) {
    cut.0 <= cut.1 <= |input| && part == input[cut.0..cut.1]
  }

  /** `part` is the largest part of the range whose ends take no pair apart. */
  ghost predicate LargestPart(input: Text, range: (nat, nat), part: Text) {
    exists cut: (nat, nat) :: LargestClean(input, range, cut) && IsPart(input, cut, part)
  }

  // The largest part is determined by the input and the range.
  lemma LargestPartIsUnique(input: Text, range: (nat, nat), part: Text, other: Text)
    requires LargestPart(input, range, part) && LargestPart(input, range, other)
    ensures part == other
  {
    var cut: (nat, nat) :| LargestClean(input, range, cut) && IsPart(input, cut, part);
    var cut': (nat, nat) :| LargestClean(input, range, cut') && IsPart(input, cut', other);
    if cut.0 < cut.1 { assert CleanRange(input, range.0, range.1, cut.0, cut.1); }
    if cut'.0 < cut'.1 { assert CleanRange(input, range.0, range.1, cut'.0, cut'.1); }
  }

  // `part` is well formed and holds every well-formed part of the range.
  ghost predicate LargestWellFormedPart(input: Text, range: (nat, nat), part: Text) {
    && WellFormed(part)
    && exists from: nat, to: nat ::
         from <= to <= |input| && part == input[from..to] && HoldsWellFormed(input, range, from, to)
  }

  ghost predicate HoldsWellFormed(input: Text, range: (nat, nat), from: nat, to: nat) {
    forall a: nat, b: nat :: range.0 <= a < b <= range.1 && b <= |input| && WellFormed(input[a..b]) ==>
      from <= a && b <= to
  }

  lemma CutIsLargest(input: Text, range: (nat, nat), cut: (nat, nat))
    requires range.1 <= |input| && cut.0 <= cut.1 <= |input| && LargestClean(input, range, cut)
    ensures LargestPart(input, range, input[cut.0..cut.1])
    ensures WellFormed(input) ==> LargestWellFormedPart(input, range, input[cut.0..cut.1])
  {
    if WellFormed(input) {
      LargestIsWellFormed(input, range, cut);
      assert HoldsWellFormed(input, range, cut.0, cut.1);
    }
  }

  // Moving each end that takes a pair apart inwards by one gives the largest clean part.
  lemma InwardIsLargest(input: Text, lo: nat, hi: nat, from: nat, to: nat)
    requires lo <= hi <= |input|
    requires from == if SplitsPair(input, lo) then lo + 1 else lo
    requires to == if SplitsPair(input, hi) then hi - 1 else hi
    ensures LargestClean(input, (lo, hi), if to < from then (from - 1, from - 1) else (from, to))
  {
  }

  /**
   On every input the result is the largest part of the requested range whose ends take no
   pair apart. On well-formed text that is the largest well-formed part of the range.
   */
  method SliceUtf16Safe(input: Text, start: int, end: Option<int>) returns (result: Text)
    ensures LargestPart(input, Requested(input, start, end), result)
    ensures WellFormed(input) ==> LargestWellFormedPart(input, Requested(input, start, end), result)
  {
    hide WellFormed, LargestClean, LargestPart, LargestWellFormedPart;
    var len := |input|;
    var from: int :=
      if start < 0 then (if len + start > 0 then len + start else 0)
      else (if start < len then start else len);
    var to: int :=
      if end.None? then len
      else if end.value < 0 then (if len + end.value > 0 then len + end.value else 0)
      else (if end.value < len then end.value else len);
    if to < from {
      var tmp := from;
      from := to;
      to := tmp;
    }
    ghost var (lo, hi) := Requested(input, start, end);
    assert from == lo && to == hi;
    if 0 < from < len {
      var codeUnit := input[from];
      if IsLowSurrogate(codeUnit) && IsHighSurrogate(input[from - 1]) {
        from := from + 1;
      }
    }
    if 0 < to < len {
      var codeUnit := input[to - 1];
      if IsHighSurrogate(codeUnit) && IsLowSurrogate(input[to]) {
        to := to - 1;
      }
    }
    InwardIsLargest(input, lo, hi, from, to);
    // `slice` of bounds that have crossed is empty.
    ghost var cut := if to < from then (from - 1, from - 1) else (from, to);
    result := if to < from then [] else input[from..to];
    CutIsLargest(input, (lo, hi), cut);
    assert result == input[cut.0..cut.1];
  }

  /** Truncation keeps a prefix of the limit's length, one unit shorter if that takes a pair apart. */
  method TruncateUtf16Safe(input: Text, maxLen: int) returns (result: Text)
    ensures var limit := if maxLen > 0 then maxLen else 0;
            result == if |input| <= limit then input
                      else if SplitsPair(input, limit) then input[..limit - 1]
                      else input[..limit]
  {
    var limit := if maxLen > 0 then maxLen else 0;
    if |input| <= limit {
      return input;
    }
    result := SliceUtf16Safe(input, 0, Some(limit));
    ghost var kept := if SplitsPair(input, limit) then limit - 1 else limit;
    assert Requested(input, 0, Some(limit)) == (0, limit);
    PrefixIsLargest(input, limit, kept);
    LargestPartIsUnique(input, (0, limit), result, input[..kept]);
  }

  lemma PrefixIsLargest(input: Text, limit: nat, kept: nat)
    requires limit < |input| && kept == if SplitsPair(input, limit) then limit - 1 else limit
    ensures LargestPart(input, (0, limit), input[..kept])
  {
    assert input[0..kept] == input[..kept];
    InwardIsLargest(input, 0, limit, 0, kept);
    assert LargestClean(input, (0, limit), (0, kept));
  }

  function Distance(a: int, b: int): nat {
    if a < b then b - a else a - b
  }

  /** A bound denotes the position nearest to it, negative ones being counted from the end. */
  lemma BoundIsNearest(index: int, len: nat, p: nat)
    requires p <= len
    ensures var wanted := if index < 0 then len + index else index;
            Distance(Resolve(index, len), wanted) <= Distance(p, wanted)
  {
  }

  /** The requested range lies between the two bounds, in whichever order they come; a missing end is the end. */
  lemma RequestedIsBetween(input: Text, start: int, end: Option<int>)
    ensures var (lo, hi) := Requested(input, start, end);
            var from, to := Resolve(start, |input|), if end.Some? then Resolve(end.value, |input|) else |input|;
            lo <= hi && {lo, hi} == {from, to}
  {
  }
}
