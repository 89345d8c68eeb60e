/**
 Positional command arguments: the parser that spreads the words of a command line over the
 argument definitions, and the printer that renders argument values back into a line.
 */
module CommandArgs {
  import opened Optional
  import opened JsText

  datatype Definition = Definition(name: string, captureRemaining: bool)

  // A string, or a number, boolean or bigint with the text `String(value)` gives for it.
  datatype Value = Str(text: Text) | Scalar(rendered: Text)

  type Values = map<string, Value>

  // ---------------------------------------------------------------- specification

  function Assign(definitions: seq<Definition>, tokens: seq<Text>): Values {
    if definitions == [] || tokens == [] then map[]
    else if definitions[0].captureRemaining then map[definitions[0].name := Str(Spaced(tokens))]
    else map[definitions[0].name := Str(tokens[0])] + Assign(definitions[1..], tokens[1..])
  }

  function Rendered(value: Value): Text {
    match value
    case Str(text) => Trim(text)
    case Scalar(rendered) => rendered
  }

  function Parts(definitions: seq<Definition>, values: Values): seq<Text> {
    if definitions == [] then []
    else
      var d := definitions[0];
      if d.name !in values || Rendered(values[d.name]) == [] then Parts(definitions[1..], values)
      else if d.captureRemaining then [Rendered(values[d.name])]
      else [Rendered(values[d.name])] + Parts(definitions[1..], values)
  }

  function Parse(definitions: seq<Definition>, raw: Text): Values {
    Assign(definitions, Words(Trim(raw)))
  }

  function Format(definitions: seq<Definition>, values: Values): Option<Text> {
    var parts := Parts(definitions, values);
    if parts == [] then None else Some(Spaced(parts))
  }

  // ---------------------------------------------------------------- the source's loops

  method ParsePositionalArgs(definitions: seq<Definition>, raw: Text) returns (values: Values)
    ensures values == Parse(definitions, raw)
  {
    values := map[];
    var trimmed := Trim(raw);
    if |trimmed| == 0 {
      return;
    }
    var tokens := Words(trimmed);
    var index := 0;
    for i := 0 to |definitions|
      invariant index == i <= |tokens|
      invariant values + Assign(definitions[i..], tokens[index..]) == Assign(definitions, tokens)
    {
      if index >= |tokens| {
        break;
      }
      if definitions[i].captureRemaining {
        values := values[definitions[i].name := Str(Spaced(tokens[index..]))];
        index := |tokens|;
        break;
      }
      assert definitions[i..][1..] == definitions[i + 1..] && tokens[index..][1..] == tokens[index + 1..];
      values := values[definitions[i].name := Str(tokens[index])];
      index := index + 1;
    }
  }

  method FormatPositionalArgs(definitions: seq<Definition>, values: Values) returns (line: Option<Text>)
    ensures line == Format(definitions, values)
  {
    var parts: seq<Text> := [];
    var i := 0;
    while i < |definitions|
      invariant 0 <= i <= |definitions|
      invariant parts + Parts(definitions[i..], values) == Parts(definitions, values)
    {
      var definition := definitions[i];
      assert definitions[i..][1..] == definitions[i + 1..];
      i := i + 1;
      if definition.name !in values {
        continue;
      }
      var value := values[definition.name];
      var rendered: Text;
      if value.Str? {
        rendered := Trim(value.text);
      } else {
        rendered := value.rendered;
      }
      if |rendered| == 0 {
        continue;
      }
      parts := parts + [rendered];
      if definition.captureRemaining {
        assert parts == Parts(definitions, values);
        break;
      }
    }
    assert parts + [] == parts == Parts(definitions, values);
    line := if |parts| > 0 then Some(Spaced(parts)) else None;
  }

  // ---------------------------------------------------------------- round trips

  ghost predicate DistinctNames(definitions: seq<Definition>) {
    forall i, j :: 0 <= i < j < |definitions| ==> definitions[i].name != definitions[j].name
  }

  // The values fill a prefix of the definitions with single words; one that captures the
  // rest holds a list of words with single spaces between them.
  ghost predicate Canonical(definitions: seq<Definition>, values: Values) {
    values == map[] ||
    (definitions != [] && definitions[0].name in values && values[definitions[0].name].Str? &&
     var text := values[definitions[0].name].text;
     if definitions[0].captureRemaining then
       values.Keys == {definitions[0].name} && Words(text) != [] && Spaced(Words(text)) == text
     else
       IsWord(text) && Canonical(definitions[1..], values - {definitions[0].name}))
  }

  // The tokens that `Assign` finds a place for.
  function Placed(definitions: seq<Definition>, tokens: seq<Text>): seq<Text> {
    if definitions == [] || tokens == [] then []
    else if definitions[0].captureRemaining then tokens
    else [tokens[0]] + Placed(definitions[1..], tokens[1..])
  }

  predicate Fits(definitions: seq<Definition>, tokens: seq<Text>) {
    || |tokens| <= |definitions|
    || exists i :: 0 <= i < |definitions| && definitions[i].captureRemaining
  }

  lemma {:induction false} PlacedAll(definitions: seq<Definition>, tokens: seq<Text>)
    ensures Placed(definitions, tokens) <= tokens
    ensures Placed(definitions, tokens) == tokens <==> Fits(definitions, tokens)
    ensures Assign(definitions, Placed(definitions, tokens)) == Assign(definitions, tokens)
  {
    if definitions != [] && tokens != [] && !definitions[0].captureRemaining {
      var ds, ts := definitions[1..], tokens[1..];
      PlacedAll(ds, ts);
      assert tokens == [tokens[0]] + ts;
      assert Fits(definitions, tokens) <==> Fits(ds, ts) by {
        if i :| 0 <= i < |definitions| && definitions[i].captureRemaining {
          assert ds[i - 1].captureRemaining;
        }
        if i :| 0 <= i < |ds| && ds[i].captureRemaining {
          assert definitions[i + 1].captureRemaining;
        }
      }
      assert ([tokens[0]] + Placed(ds, ts))[1..] == Placed(ds, ts);
    }
  }

  lemma {:induction false} AssignNames(definitions: seq<Definition>, tokens: seq<Text>, name: string)
    requires name in Assign(definitions, tokens)
    ensures exists i :: 0 <= i < |definitions| && definitions[i].name == name
  {
    if name != definitions[0].name {
      AssignNames(definitions[1..], tokens[1..], name);
      var i :| 0 <= i < |definitions[1..]| && definitions[1..][i].name == name;
      assert definitions[i + 1].name == name;
    }
  }

  lemma {:induction false} PartsReadOnlyTheirNames(definitions: seq<Definition>, values: Values, values': Values)
    requires forall i :: 0 <= i < |definitions| ==>
      (definitions[i].name in values <==> definitions[i].name in values')
      && (definitions[i].name in values ==> values[definitions[i].name] == values'[definitions[i].name])
    ensures Parts(definitions, values) == Parts(definitions, values')
  {
    if definitions != [] {
      assert forall i :: 0 <= i < |definitions[1..]| ==> definitions[1..][i] == definitions[i + 1];
      PartsReadOnlyTheirNames(definitions[1..], values, values');
    }
  }

  // What the printer makes of parsed tokens: the placed ones, single-spaced.
  lemma {:induction false} FormatAssigned(definitions: seq<Definition>, tokens: seq<Text>)
    requires DistinctNames(definitions) && AllWords(tokens)
    ensures Format(definitions, Assign(definitions, tokens))
         == if definitions == [] || tokens == [] then None else Some(Spaced(Placed(definitions, tokens)))
  {
    if definitions == [] {
    } else if tokens == [] {
      NoValuesNoParts(definitions);
    } else if definitions[0].captureRemaining {
      SpacedIsStable(tokens);
    } else {
      var ds, ts, name := definitions[1..], tokens[1..], definitions[0].name;
      var values, rest := Assign(definitions, tokens), Assign(ds, ts);
      FormatAssigned(ds, ts);
      assert name !in rest by {
        if name in rest { AssignNames(ds, ts, name); }
      }
      SpacedIsStable([tokens[0]]);
      assert Rendered(values[name]) == tokens[0];
      PartsReadOnlyTheirNames(ds, values, rest);
      assert Parts(definitions, values) == [tokens[0]] + Parts(ds, rest);
      var parts := Parts(ds, rest);
      if parts != [] {
        assert Spaced([tokens[0]] + parts) == tokens[0] + [SPACE] + Spaced(parts);
      }
    }
  }

  lemma {:induction false} NoValuesNoParts(definitions: seq<Definition>)
    ensures Parts(definitions, map[]) == []
  {
    if definitions != [] { NoValuesNoParts(definitions[1..]); }
  }

  // The words that canonical values were made from.
  ghost function Tokens(definitions: seq<Definition>, values: Values): seq<Text>
    requires Canonical(definitions, values)
  {
    if values == map[] then []
    else if definitions[0].captureRemaining then Words(values[definitions[0].name].text)
    else [values[definitions[0].name].text] + Tokens(definitions[1..], values - {definitions[0].name})
  }

  lemma {:induction false} CanonicalComesFromTokens(definitions: seq<Definition>, values: Values)
    requires Canonical(definitions, values)
    ensures var tokens := Tokens(definitions, values);
            && Assign(definitions, tokens) == values && Placed(definitions, tokens) == tokens
            && AllWords(tokens)
  {
    if values != map[] {
      var name := definitions[0].name;
      if definitions[0].captureRemaining {
        WordsAreWords(values[name].text);
      } else {
        CanonicalComesFromTokens(definitions[1..], values - {name});
        var tokens := Tokens(definitions, values);
        assert tokens[1..] == Tokens(definitions[1..], values - {name});
      }
    }
  }

  lemma {:induction false} AssignedIsCanonical(definitions: seq<Definition>, tokens: seq<Text>)
    requires DistinctNames(definitions) && AllWords(tokens)
    ensures Canonical(definitions, Assign(definitions, tokens))
  {
    if definitions != [] && tokens != [] {
      if definitions[0].captureRemaining {
        WordsOfSpaced(tokens);
      } else {
        var name, rest := definitions[0].name, Assign(definitions[1..], tokens[1..]);
        AssignedIsCanonical(definitions[1..], tokens[1..]);
        assert name !in rest by {
          if name in rest { AssignNames(definitions[1..], tokens[1..], name); }
        }
        assert Assign(definitions, tokens) - {name} == rest;
      }
    }
  }

  // The line the printer gives, "" standing for no line at all.
  function Line(definitions: seq<Definition>, values: Values): Text {
    match Format(definitions, values)
    case None => []
    case Some(line) => line
  }

  /** Printing and parsing gives the same values back exactly when they are canonical. */
  lemma ParseFormatRoundTrip(definitions: seq<Definition>, values: Values)
    requires DistinctNames(definitions)
    ensures Parse(definitions, Line(definitions, values)) == values <==> Canonical(definitions, values)
  {
    if Canonical(definitions, values) {
      var tokens := Tokens(definitions, values);
      CanonicalComesFromTokens(definitions, values);
      FormatAssigned(definitions, tokens);
      SpacedIsStable(tokens);
      WordsOfSpaced(tokens);
    }
    var line := Line(definitions, values);
    WordsAreWords(Trim(line));
    AssignedIsCanonical(definitions, Words(Trim(line)));
  }

  /**
   Parsing and printing gives the line with single spaces between its words, cut after the
   last word that has a place; so nothing is lost exactly when all words have one.
   */
  lemma FormatParseRoundTrip(definitions: seq<Definition>, raw: Text)
    requires DistinctNames(definitions)
    ensures var tokens := Words(Trim(raw));
            && Line(definitions, Parse(definitions, raw)) == Spaced(Placed(definitions, tokens))
            && (Line(definitions, Parse(definitions, raw)) == Spaced(tokens) <==> Fits(definitions, tokens))
  {
    var tokens := Words(Trim(raw));
    WordsAreWords(Trim(raw));
    FormatAssigned(definitions, tokens);
    PlacedAll(definitions, tokens);
    WordsOfSpaced(tokens);
    WordsOfSpaced(Placed(definitions, tokens));
  }

  // ---------------------------------------------------------------- definition by definition

  ghost predicate CapturedBefore(definitions: seq<Definition>, i: nat)
    requires i <= |definitions|
  {
    exists j :: 0 <= j < i && definitions[j].captureRemaining
  }

  lemma {:induction false} OthersAreNotAssigned(definitions: seq<Definition>, tokens: seq<Text>, name: string)
    requires forall i :: 0 <= i < |definitions| ==> definitions[i].name != name
    ensures name !in Assign(definitions, tokens)
  {
    if definitions != [] && tokens != [] { OthersAreNotAssigned(definitions[1..], tokens[1..], name); }
  }

  /**
   The i-th definition gets the i-th word, or all words from there on joined by single spaces if
   it captures the rest, and nothing if there are no more words or an earlier one captures them.
   */
  lemma {:induction false} AssignedAt(definitions: seq<Definition>, tokens: seq<Text>, i: nat)
    requires DistinctNames(definitions) && i < |definitions|
    ensures var values, name := Assign(definitions, tokens), definitions[i].name;
            if CapturedBefore(definitions, i) || i >= |tokens| then name !in values
            else
              && name in values
              && values[name] == Str(if definitions[i].captureRemaining then Spaced(tokens[i..]) else tokens[i])
    decreases |definitions|
  {
    var ds := definitions[1..];
    if tokens != [] && i == 0 {
      assert tokens[0..] == tokens;
      OthersAreNotAssigned(ds, tokens[1..], definitions[0].name);
    } else if tokens != [] {
      if definitions[0].captureRemaining {
        assert CapturedBefore(definitions, i);
      } else {
        AssignedAt(ds, tokens[1..], i - 1);
        if i < |tokens| { assert tokens[1..][i - 1..] == tokens[i..]; }
        if j :| 0 <= j < i && definitions[j].captureRemaining { assert ds[j - 1].captureRemaining; }
        if j :| 0 <= j < i - 1 && ds[j].captureRemaining { assert definitions[j + 1].captureRemaining; }
      }
    }
  }

  // The text printed for a definition, "" if it has no value.
  function PrintedFor(d: Definition, values: Values): Text {
    if d.name !in values then []
    else match values[d.name]
      case Str(text) => Trim(text)
      case Scalar(rendered) => rendered
  }

  // A capturing definition with something to print ends the line.
  ghost predicate EndsLine(definitions: seq<Definition>, values: Values) {
    exists j :: 0 <= j < |definitions| && definitions[j].captureRemaining && PrintedFor(definitions[j], values) != []
  }

  /** One definition prints its trimmed string or its scalar as it is, or nothing at all. */
  lemma PartOf(d: Definition, values: Values)
    ensures Parts([d], values) == if PrintedFor(d, values) == [] then [] else [PrintedFor(d, values)]
  {
    assert [d][1..] == [];
  }

  /** Definitions print one after the other, up to a capturing one that prints something. */
  lemma {:induction false} PartsInOrder(a: seq<Definition>, b: seq<Definition>, values: Values)
    ensures Parts(a + b, values) == Parts(a, values) + (if EndsLine(a, values) then [] else Parts(b, values))
  {
    if a == [] {
      assert a + b == b && [] + Parts(b, values) == Parts(b, values);
    } else {
      var d := a[0];
      assert (a + b)[1..] == a[1..] + b && (a + b)[0] == d;
      PartsInOrder(a[1..], b, values);
      EndsLineFurther(a, values);
      hide EndsLine;
      var printed := PrintedFor(d, values);
      var more := if EndsLine(a[1..], values) then [] else Parts(b, values);
      assert [printed] + (Parts(a[1..], values) + more) == [printed] + Parts(a[1..], values) + more;
      assert [printed] + [] == [printed];
    }
  }

  lemma EndsLineFurther(a: seq<Definition>, values: Values)
    requires a != []
    ensures EndsLine(a, values)
       <==> (a[0].captureRemaining && PrintedFor(a[0], values) != []) || EndsLine(a[1..], values)
  {
    if j :| 0 <= j < |a| && a[j].captureRemaining && PrintedFor(a[j], values) != [] {
      assert j > 0 ==> a[1..][j - 1] == a[j];
    }
    if j :| 0 <= j < |a[1..]| && a[1..][j].captureRemaining && PrintedFor(a[1..][j], values) != [] {
      assert a[j + 1] == a[1..][j];
    }
  }

  /** The line joins what is printed by single spaces; there is none if nothing is. */
  lemma FormatJoins(definitions: seq<Definition>, values: Values)
    ensures Format(definitions, values).Some? <==> Parts(definitions, values) != []
    ensures Parts(definitions, values) != [] ==>
      Format(definitions, values) == Some(Join(Parts(definitions, values), [SPACE]))
  {
  }

  // ---------------------------------------------------------------- whole commands

  // `formatArgs` is the command's own printer, if it has one.
  datatype Command = Command(
    args: Option<seq<Definition>>,
    parsesArgs: bool,
    formatArgs: Option<Values -> Option<Text>>)

  datatype Args = Args(raw: Option<Text>, values: Option<Values>)

  function ParseCommandArgs(command: Command, raw: Option<Text>): Option<Args> {
    if raw.None? || Trim(raw.value) == [] then None
    else if command.args.None? || !command.parsesArgs then Some(Args(Some(Trim(raw.value)), None))
    else Some(Args(Some(Trim(raw.value)), Some(Parse(command.args.value, Trim(raw.value)))))
  }

  function SerializeCommandArgs(command: Command, args: Option<Args>): Option<Text> {
    if args.None? then None
    else if args.value.raw.Some? && Trim(args.value.raw.value) != [] then Some(Trim(args.value.raw.value))
    else if args.value.values.None? || command.args.None? then None
    else if command.formatArgs.Some? then command.formatArgs.value(args.value.values.value)
    else Format(command.args.value, args.value.values.value)
  }

  /** Serializing parsed arguments gives the trimmed line, which parses to the same arguments. */
  lemma CommandArgsRoundTrip(command: Command, raw: Text)
    ensures var args := ParseCommandArgs(command, Some(raw));
            && SerializeCommandArgs(command, args) == (if Blank(raw) then None else Some(Trim(raw)))
            && ParseCommandArgs(command, SerializeCommandArgs(command, args)) == args
  {
    TrimIsStable(raw);
    TrimIsStable(Trim(raw));
  }

  /** Canonical values alone, without the line they came from, survive the trip as well. */
  lemma ValuesRoundTrip(command: Command, values: Values)
    requires command.args.Some? && command.parsesArgs && command.formatArgs.None?
    requires DistinctNames(command.args.value) && Canonical(command.args.value, values) && values != map[]
    ensures var line := SerializeCommandArgs(command, Some(Args(None, Some(values))));
            && line.Some?
            && ParseCommandArgs(command, line) == Some(Args(line, Some(values)))
  {
    var definitions := command.args.value;
    var tokens := Tokens(definitions, values);
    CanonicalComesFromTokens(definitions, values);
    FormatAssigned(definitions, tokens);
    SpacedIsStable(tokens);
    ParseFormatRoundTrip(definitions, values);
  }

  /**
   A line that is not blank parses, to values exactly if the command defines arguments and parses
   them. Serializing prefers the line, then the command's own printer.
   */
  lemma ArgsTakeEffect(command: Command, raw: Option<Text>, args: Args)
    ensures ParseCommandArgs(command, raw).Some? <==> raw.Some? && !Blank(raw.value)
    ensures ParseCommandArgs(command, raw).Some? ==>
              && ParseCommandArgs(command, raw).value.raw == Some(Trim(raw.value))
              && (ParseCommandArgs(command, raw).value.values.Some? <==> command.args.Some? && command.parsesArgs)
    ensures SerializeCommandArgs(command, None) == None
    ensures var line := SerializeCommandArgs(command, Some(args));
            if args.raw.Some? && !Blank(args.raw.value) then line == Some(Trim(args.raw.value))
            else
              && (args.values.None? || command.args.None? ==> line == None)
              && (args.values.Some? && command.args.Some? && command.formatArgs.Some? ==>
                    line == command.formatArgs.value(args.values.value))
  {
    if raw.Some? { TrimIsStable(raw.value); }
    if args.raw.Some? { TrimIsStable(args.raw.value); }
  }
}
