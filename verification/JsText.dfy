/**
 Strings as the JavaScript runtime sees them: sequences of UTF-16 code units, with the
 white space that `\s` and `String.prototype.trim` recognise (ECMA-262, sections 22.1.3.32
 and 22.2.2.9).
 */
module JsText {
  newtype CodeUnit = u: int | 0 <= u <= 0xFFFF

  type Text = seq<CodeUnit>

  const NEWLINE: CodeUnit := 10
  const CARRIAGE_RETURN: CodeUnit := 13
  const SPACE: CodeUnit := 32
  const OPEN_PAREN: CodeUnit := 40
  const CLOSE_PAREN: CodeUnit := 41
  const DOT: CodeUnit := 46
  const OPEN_BRACKET: CodeUnit := 91
  const BACKSLASH: CodeUnit := 92
  const CLOSE_BRACKET: CodeUnit := 93
  const BACKTICK: CodeUnit := 96
  const TILDE: CodeUnit := 126
  const LINE_SEPARATOR: CodeUnit := 0x2028
  const PARAGRAPH_SEPARATOR: CodeUnit := 0x2029

  predicate IsSpace(u: CodeUnit) {
    || 9 <= u <= 13 || u == 32 || u == 0xA0 || u == 0x1680
    || 0x2000 <= u <= 0x200A || u == 0x2028 || u == 0x2029 || u == 0x202F
    || u == 0x205F || u == 0x3000 || u == 0xFEFF
  }

  predicate IsDigit(u: CodeUnit) {
    48 <= u <= 57
  }

  // `!text.trim()`
  predicate Blank(text: Text) {
    forall u <- text :: IsSpace(u)
  }

  predicate SpaceFree(text: Text) {
    forall u <- text :: !IsSpace(u)
  }

  function TrimStart(text: Text): Text {
    if text != [] && IsSpace(text[0]) then TrimStart(text[1..]) else text
  }

  function TrimEnd(text: Text): Text {
    if text != [] && IsSpace(text[|text| - 1]) then TrimEnd(text[..|text| - 1]) else text
  }

  function Trim(text: Text): Text {
    TrimEnd(TrimStart(text))
  }

  // No white space at either end.
  predicate TrimStable(text: Text) {
    text == [] || (!IsSpace(text[0]) && !IsSpace(text[|text| - 1]))
  }

  lemma {:induction false} TrimEndKeepsFront(text: Text)
    requires text == [] || !IsSpace(text[0])
    ensures TrimStable(TrimEnd(text)) && (text != [] ==> TrimEnd(text) != [] && TrimEnd(text)[0] == text[0])
  {
    if text != [] && IsSpace(text[|text| - 1]) {
      TrimEndKeepsFront(text[..|text| - 1]);
    }
  }

  lemma {:induction false} TrimStartFront(text: Text)
    ensures TrimStart(text) == [] || !IsSpace(TrimStart(text)[0])
    ensures TrimStart(text) == [] <==> Blank(text)
  {
    if text != [] {
      assert text == [text[0]] + text[1..];
      if IsSpace(text[0]) {
        TrimStartFront(text[1..]);
      }
    }
  }

  lemma TrimIsStable(text: Text)
    ensures TrimStable(Trim(text))
    ensures Trim(text) == [] <==> Blank(text)
    ensures TrimStable(text) <==> Trim(text) == text
  {
    TrimStartFront(text);
    TrimEndKeepsFront(TrimStart(text));
  }

  function Join(parts: seq<Text>, separator: Text): Text {
    if |parts| == 0 then []
    else if |parts| == 1 then parts[0]
    else parts[0] + separator + Join(parts[1..], separator)
  }

  // ---------------------------------------------------------------- words

  predicate IsWord(text: Text) {
    text != [] && SpaceFree(text)
  }

  predicate AllWords(words: seq<Text>) {
    forall i :: 0 <= i < |words| ==> IsWord(words[i])
  }

  function WordLength(text: Text): (n: nat)
    ensures n <= |text| && SpaceFree(text[..n])
    ensures n < |text| ==> IsSpace(text[n])
  {
    if text == [] || IsSpace(text[0]) then 0
    else
      var n := WordLength(text[1..]);
      assert text[..n + 1] == [text[0]] + text[1..][..n];
      n + 1
  }

  // `text.split(/\s+/).filter(Boolean)`
  function Words(text: Text): seq<Text>
    decreases |text|
  {
    if text == [] then []
    else if IsSpace(text[0]) then Words(text[1..])
    else [text[..WordLength(text)]] + Words(text[WordLength(text)..])
  }

  lemma {:induction false} WordsAreWords(text: Text)
    ensures AllWords(Words(text))
    decreases |text|
  {
    if text != [] {
      if IsSpace(text[0]) {
        WordsAreWords(text[1..]);
      } else {
        WordsAreWords(text[WordLength(text)..]);
      }
    }
  }

  lemma {:induction false} WordLengthOf(word: Text, rest: Text)
    requires SpaceFree(word) && (rest == [] || IsSpace(rest[0]))
    ensures WordLength(word + rest) == |word|
  {
    if word == [] {
      assert word + rest == rest;
    } else {
      assert (word + rest)[1..] == word[1..] + rest;
      WordLengthOf(word[1..], rest);
    }
  }

  function Spaced(words: seq<Text>): Text {
    Join(words, [SPACE])
  }

  /** Splitting inverts joining with single spaces. */
  lemma {:induction false} WordsOfSpaced(words: seq<Text>)
    requires AllWords(words)
    ensures Words(Spaced(words)) == words
  {
    if |words| == 1 {
      WordLengthOf(words[0], []);
      assert words[0] + [] == words[0];
    } else if |words| > 1 {
      var rest := [SPACE] + Spaced(words[1..]);
      assert Spaced(words) == words[0] + rest;
      WordLengthOf(words[0], rest);
      assert Spaced(words)[|words[0]|..] == rest && Spaced(words)[..|words[0]|] == words[0];
      assert rest[1..] == Spaced(words[1..]);
      WordsOfSpaced(words[1..]);
    }
  }

  lemma {:induction false} SpacedIsStable(words: seq<Text>)
    requires AllWords(words)
    ensures TrimStable(Spaced(words)) && Trim(Spaced(words)) == Spaced(words)
    ensures words != [] ==> Spaced(words) != []
  {
    if |words| > 1 {
      SpacedIsStable(words[1..]);
    }
    TrimIsStable(Spaced(words));
  }

  /** Trimming takes white space off both ends and nothing else. */
  lemma TrimCutsSpace(text: Text) returns (left: Text, right: Text)
    ensures text == left + Trim(text) + right && Blank(left) && Blank(right)
  {
    left := StartCut(text);
    var rest := TrimStart(text);
    right := EndCut(rest);
    assert text == left + rest && rest == TrimEnd(rest) + right;
    assert left + (Trim(text) + right) == left + Trim(text) + right;
  }

  lemma {:induction false} StartCut(text: Text) returns (left: Text)
    ensures text == left + TrimStart(text) && Blank(left)
  {
    if text != [] && IsSpace(text[0]) {
      var more := StartCut(text[1..]);
      left := [text[0]] + more;
      assert text == [text[0]] + text[1..];
    } else {
      left := [];
    }
  }

  lemma {:induction false} EndCut(text: Text) returns (right: Text)
    ensures text == TrimEnd(text) + right && Blank(right)
  {
    if text != [] && IsSpace(text[|text| - 1]) {
      var more := EndCut(text[..|text| - 1]);
      right := more + [text[|text| - 1]];
      assert text == text[..|text| - 1] + [text[|text| - 1]];
    } else {
      right := [];
      assert text == TrimEnd(text) + [];
    }
  }

  /** A text without white space is one word. */
  lemma OneWord(word: Text)
    requires IsWord(word)
    ensures Words(word) == [word]
  {
    assert word[0] in word && word + [] == word;
    WordLengthOf(word, []);
    assert word[..|word|] == word && word[|word|..] == [];
  }

  lemma FirstWord(word: Text, rest: Text)
    requires IsWord(word) && rest != [] && IsSpace(rest[0])
    ensures Words(word + rest) == [word] + Words(rest)
  {
    WordLengthOf(word, rest);
    assert word[0] in word && (word + rest)[0] == word[0];
    assert (word + rest)[..|word|] == word && (word + rest)[|word|..] == rest;
  }

  /** Every unit of white space separates words, however many there are. */
  lemma {:induction false} SpaceSeparates(a: Text, u: CodeUnit, b: Text)
    requires IsSpace(u)
    ensures Words(a + [u] + b) == Words(a) + Words(b)
    decreases |a|
  {
    var all := a + [u] + b;
    if a == [] {
      assert all[1..] == b && [] + Words(b) == Words(b);
    } else if IsSpace(a[0]) {
      assert all[1..] == a[1..] + [u] + b;
      SpaceSeparates(a[1..], u, b);
    } else {
      var n := WordLength(a);
      var word, rest := a[..n], a[n..];
      assert a == word + rest && all == word + (rest + [u] + b);
      SpaceSeparates(rest, u, b);
      FirstWord(word, rest + [u] + b);
      assert [word] + (Words(rest) + Words(b)) == [word] + Words(rest) + Words(b);
    }
  }
}
