/**
 Reading, writing and removing values at a path of a JSON tree that mixes objects and arrays.
 */
module ConfigTree {
  import opened Optional
  import opened JsText

  // `Undefined` is the hole of a sparse array. The order of an object's keys is not modelled.
  datatype Json =
    | Undefined
    | Null
    | Bool(b: bool)
    | Number(literal: Text)
    | String(text: Text)
    | Arr(items: seq<Json>)
    | Obj(fields: map<Text, Json>)

  datatype PathError = ExpectedIndex(segment: Text) | CannotTraverse(segment: Text) | CannotSet(segment: Text)

  type Path = seq<Text>

  // ---------------------------------------------------------------- segments

  // `/^[0-9]+$/`
  predicate IsIndex(segment: Text) {
    segment != [] && forall i :: 0 <= i < |segment| ==> IsDigit(segment[i])
  }

  // `Number.parseInt(segment, 10)` of an index segment.
  function Index(segment: Text): nat
    requires forall i :: 0 <= i < |segment| ==> IsDigit(segment[i])
  {
    if segment == [] then 0
    else
      var last := segment[|segment| - 1];
      assert IsDigit(last);
      10 * Index(segment[..|segment| - 1]) + (last as int - 48)
  }

  predicate Container(t: Json) {
    t.Arr? || t.Obj?
  }

  // The value that one step from t reaches.
  function Child(t: Json, segment: Text): Option<Json> {
    match t
    case Arr(items) => if IsIndex(segment) && Index(segment) < |items| then Some(items[Index(segment)]) else None
    case Obj(fields) => if segment in fields then Some(fields[segment]) else None
    case _ => None
  }

  function Holes(n: nat): (s: seq<Json>)
    ensures |s| == n
  {
    seq(n, _ => Undefined)
  }

  // `current[segment] = value`, where an array may grow.
  function Put(t: Json, segment: Text, value: Json): Json
    requires t.Obj? || (t.Arr? && IsIndex(segment))
  {
    match t
    case Obj(fields) => Obj(fields[segment := value])
    case Arr(items) =>
      var i := Index(segment);
      if i < |items| then Arr(items[i := value]) else Arr(items + Holes(i - |items|) + [value])
  }

  function Fresh(next: Text): Json {
    if IsIndex(next) then Arr([]) else Obj(map[])
  }

  // The container below t that a write goes through, made anew if there is none.
  function Below(t: Json, segment: Text, next: Text): (c: Json)
    ensures Container(c)
  {
    var child := Child(t, segment);
    if child.Some? && Container(child.value) then child.value else Fresh(next)
  }

  // ---------------------------------------------------------------- specification

  function Get(t: Json, path: Path): Option<Json>
    decreases |path|
  {
    if path == [] then Some(t)
    else
      var child := Child(t, path[0]);
      if child.None? then None else Get(child.value, path[1..])
  }

  // What is left in the place of t, and the error thrown, if any.
  function Set(t: Json, path: Path, value: Json): (Json, Option<PathError>)
    requires path != []
    decreases |path|
  {
    var segment := path[0];
    if t.Arr? && !IsIndex(segment) then (t, Some(ExpectedIndex(segment)))
    else if !Container(t) then (t, Some(if |path| == 1 then CannotSet(segment) else CannotTraverse(segment)))
    else if |path| == 1 then (Put(t, segment, value), None)
    else
      var (child, error) := Set(Below(t, segment, path[1]), path[1..], value);
      (Put(t, segment, child), error)
  }

  // One step of removal: a key goes, or an element does and those behind it move up.
  function Drop(t: Json, segment: Text): Json
    requires Child(t, segment).Some?
  {
    match t
    case Obj(fields) => Obj(fields - {segment})
    case Arr(items) => Arr(items[..Index(segment)] + items[Index(segment) + 1..])
  }

  function Unset(t: Json, path: Path): (Json, bool)
    requires path != []
    decreases |path|
  {
    var child := Child(t, path[0]);
    if child.None? then (t, false)
    else if |path| == 1 then (Drop(t, path[0]), true)
    else
      var (child', removed) := Unset(child.value, path[1..]);
      (Put(t, path[0], child'), removed)
  }

  // ---------------------------------------------------------------- one step

  lemma PutBack(t: Json, segment: Text)
    requires Child(t, segment).Some?
    ensures Put(t, segment, Child(t, segment).value) == t
  {
    match t
    case Obj(fields) => assert fields[segment := fields[segment]] == fields;
    case Arr(items) => assert items[Index(segment) := items[Index(segment)]] == items;
  }

  predicate SameStep(t: Json, a: Text, b: Text) {
    if t.Arr? then IsIndex(a) && IsIndex(b) && Index(a) == Index(b) else a == b
  }

  lemma PutChild(t: Json, segment: Text, value: Json, other: Text)
    requires t.Obj? || (t.Arr? && IsIndex(segment))
    ensures SameStep(t, segment, other) ==> Child(Put(t, segment, value), other) == Some(value)
    ensures !SameStep(t, segment, other) && Child(t, other).Some? ==>
      Child(Put(t, segment, value), other) == Child(t, other)
  {
  }

  lemma PutTwice(t: Json, segment: Text, first: Json, value: Json)
    requires t.Obj? || (t.Arr? && IsIndex(segment))
    ensures Put(Put(t, segment, first), segment, value) == Put(t, segment, value)
  {
    match t
    case Obj(fields) => assert fields[segment := first][segment := value] == fields[segment := value];
    case Arr(items) =>
      var i := Index(segment);
      if i < |items| {
        assert items[i := first][i := value] == items[i := value];
      } else {
        var grown := items + Holes(i - |items|);
        assert (grown + [first])[i := value] == grown + [value];
      }
  }

  // ---------------------------------------------------------------- writing and reading

  /** A value that was written is found again. */
  lemma {:induction false} GetAfterSet(t: Json, path: Path, value: Json)
    requires path != [] && Set(t, path, value).1 == None
    ensures Get(Set(t, path, value).0, path) == Some(value)
    decreases |path|
  {
    var (child, error) := if |path| == 1 then (value, None) else Set(Below(t, path[0], path[1]), path[1..], value);
    PutChild(t, path[0], child, path[0]);
    if |path| > 1 { GetAfterSet(Below(t, path[0], path[1]), path[1..], value); }
  }

  // In t the shorter path is the way to the longer one, array segments being compared as numbers.
  predicate Overlap(t: Json, p: Path, q: Path)
    decreases |q|
  {
    p == [] || q == [] ||
    (SameStep(t, p[0], q[0]) && Child(t, q[0]).Some? && Overlap(Child(t, q[0]).value, p[1..], q[1..]))
  }

  /** A write leaves every found path alone that is neither on the way to the written one nor below it. */
  lemma {:induction false} SetKeepsOtherPaths(t: Json, path: Path, value: Json, other: Path)
    requires path != [] && Get(t, other).Some? && !Overlap(t, path, other)
    ensures Get(Set(t, path, value).0, other) == Get(t, other)
    decreases |path|
  {
    if Container(t) && !(t.Arr? && !IsIndex(path[0])) {
      var child := if |path| == 1 then value else Set(Below(t, path[0], path[1]), path[1..], value).0;
      PutChild(t, path[0], child, other[0]);
      if SameStep(t, path[0], other[0]) {
        SetKeepsOtherPaths(Child(t, other[0]).value, path[1..], value, other[1..]);
      }
    }
  }

  // An existing array on the way is met with a segment that is no index.
  predicate Blocked(t: Json, path: Path)
    requires path != []
    decreases |path|
  {
    || (t.Arr? && !IsIndex(path[0]))
    || (|path| > 1 && Child(t, path[0]).Some? && Container(Child(t, path[0]).value)
        && Blocked(Child(t, path[0]).value, path[1..]))
  }

  /**
   From an object or array a write throws exactly when an existing array is met with a
   segment that is no index; then it throws that error and has changed nothing.
   */
  lemma {:induction false} SetThrowsIffBlocked(t: Json, path: Path, value: Json)
    requires path != [] && Container(t)
    ensures Set(t, path, value).1 != None <==> Blocked(t, path)
    ensures Set(t, path, value).1 != None ==> Set(t, path, value).0 == t && Set(t, path, value).1.value.ExpectedIndex?
    decreases |path|
  {
    if |path| > 1 && !(t.Arr? && !IsIndex(path[0])) {
      var below := Below(t, path[0], path[1]);
      SetThrowsIffBlocked(below, path[1..], value);
      if Child(t, path[0]).Some? && Container(Child(t, path[0]).value) {
        PutBack(t, path[0]);
      } else {
        FreshIsNotBlocked(path[1..]);
      }
    }
  }

  // What a write makes anew never stands in its own way.
  lemma FreshIsNotBlocked(path: Path)
    requires path != []
    ensures !Blocked(Fresh(path[0]), path)
  {
  }

  // ---------------------------------------------------------------- through a prefix

  // t with the value at a found path replaced.
  function Replace(t: Json, path: Path, value: Json): Json
    requires Get(t, path).Some?
    decreases |path|
  {
    if path == [] then value
    else Put(t, path[0], Replace(Child(t, path[0]).value, path[1..], value))
  }

  lemma {:induction false} GetReplaced(t: Json, path: Path, value: Json)
    requires Get(t, path).Some?
    ensures Get(Replace(t, path, value), path) == Some(value)
    decreases |path|
  {
    if path != [] {
      GetReplaced(Child(t, path[0]).value, path[1..], value);
      PutChild(t, path[0], Replace(Child(t, path[0]).value, path[1..], value), path[0]);
    }
  }

  lemma {:induction false} ReplaceBack(t: Json, path: Path)
    requires Get(t, path).Some?
    ensures Replace(t, path, Get(t, path).value) == t
    decreases |path|
  {
    if path != [] {
      ReplaceBack(Child(t, path[0]).value, path[1..]);
      PutBack(t, path[0]);
    }
  }

  lemma {:induction false} ReplaceTwice(t: Json, path: Path, first: Json, value: Json)
    requires Get(t, path).Some?
    ensures Get(Replace(t, path, first), path).Some?
    ensures Replace(Replace(t, path, first), path, value) == Replace(t, path, value)
    decreases |path|
  {
    GetReplaced(t, path, first);
    if path != [] {
      var child := Child(t, path[0]).value;
      ReplaceTwice(child, path[1..], first, value);
      PutChild(t, path[0], Replace(child, path[1..], first), path[0]);
      PutTwice(t, path[0], Replace(child, path[1..], first), Replace(child, path[1..], value));
    }
  }

  lemma {:induction false} GetConcat(t: Json, p: Path, q: Path)
    requires Get(t, p).Some?
    ensures Get(t, p + q) == Get(Get(t, p).value, q)
    decreases |p|
  {
    if p == [] {
      assert p + q == q;
    } else {
      assert (p + q)[1..] == p[1..] + q;
      GetConcat(Child(t, p[0]).value, p[1..], q);
    }
  }

  /** A write through a found prefix that leads to a container is a write below it. */
  lemma {:induction false} SetThroughPrefix(t: Json, p: Path, q: Path, value: Json)
    requires q != [] && Get(t, p).Some? && Container(Get(t, p).value)
    ensures var (below, error) := Set(Get(t, p).value, q, value);
            Set(t, p + q, value) == (Replace(t, p, below), error)
    decreases |p|
  {
    if p == [] {
      assert p + q == q;
    } else {
      var child := Child(t, p[0]).value;
      assert (p + q)[1..] == p[1..] + q;
      SetThroughPrefix(child, p[1..], q, value);
      assert Container(child) by { if |p| > 1 { assert Child(child, p[1]).Some?; } }
    }
  }

  lemma {:induction false} UnsetThroughPrefix(t: Json, p: Path, q: Path)
    requires q != [] && Get(t, p).Some?
    ensures var (below, removed) := Unset(Get(t, p).value, q);
            Unset(t, p + q) == (Replace(t, p, below), removed)
    decreases |p|
  {
    if p == [] {
      assert p + q == q;
    } else {
      assert (p + q)[1..] == p[1..] + q;
      UnsetThroughPrefix(Child(t, p[0]).value, p[1..], q);
    }
  }

  // ---------------------------------------------------------------- removing

  /** Removal succeeds exactly where reading does, and changes nothing where it fails. */
  lemma {:induction false} UnsetIffFound(t: Json, path: Path)
    requires path != []
    ensures Unset(t, path).1 <==> Get(t, path).Some?
    ensures !Unset(t, path).1 ==> Unset(t, path).0 == t
    decreases |path|
  {
    if |path| > 1 && Child(t, path[0]).Some? {
      UnsetIffFound(Child(t, path[0]).value, path[1..]);
      PutBack(t, path[0]);
    }
  }

  ghost predicate KeyRemoved(before: Json, after: Json, key: Text, other: Text) {
    after.Obj? && Child(after, key) == None && (other != key ==> Child(after, other) == Child(before, other))
  }

  ghost predicate ElementRemoved(before: Json, after: Json, k: nat)
    requires before.Arr?
  {
    && after.Arr? && |after.items| == |before.items| - 1 && k < |before.items|
    && forall i :: 0 <= i < |after.items| ==> after.items[i] == before.items[if i < k then i else i + 1]
  }

  /**
   Removing an array element moves exactly the later ones up by one and keeps the earlier
   ones; removing a key removes that key alone.
   */
  lemma UnsetShiftsByOne(t: Json, parent: Path, segment: Text, other: Text)
    requires Get(t, parent).Some? && Child(Get(t, parent).value, segment).Some?
    ensures var before, after := Get(t, parent).value, Get(Unset(t, parent + [segment]).0, parent);
            && after.Some?
            && (before.Obj? ==> KeyRemoved(before, after.value, segment, other))
            && (before.Arr? ==> ElementRemoved(before, after.value, Index(segment)))
  {
    hide Replace, Get, Index, IsIndex;
    GetConcat(t, parent, [segment]);
    UnsetThroughPrefix(t, parent, [segment]);
    GetReplaced(t, parent, Unset(Get(t, parent).value, [segment]).0);
  }

  /** Removal leaves every found path alone that parts from the removed one above its last step. */
  lemma {:induction false} UnsetKeepsOtherPaths(t: Json, path: Path, other: Path)
    requires path != [] && Get(t, other).Some? && !Overlap(t, path[..|path| - 1], other)
    ensures Get(Unset(t, path).0, other) == Get(t, other)
    decreases |path|
  {
    assert |path| > 1;
    if Child(t, path[0]).Some? {
      var child := Child(t, path[0]).value;
      PutChild(t, path[0], Unset(child, path[1..]).0, other[0]);
      if SameStep(t, path[0], other[0]) {
        assert path[..|path| - 1][1..] == path[1..][..|path| - 2];
        UnsetKeepsOtherPaths(child, path[1..], other[1..]);
      }
    }
  }

  // One step into the parent of what was removed.
  lemma GetPastRemoval(t: Json, parent: Path, segment: Text, step: Text, rest: Path)
    requires Get(t, parent).Some? && Child(Get(t, parent).value, segment).Some?
    ensures var after := Drop(Get(t, parent).value, segment);
            Get(Unset(t, parent + [segment]).0, parent + [step] + rest) == Get(after, [step] + rest)
  {
    var after := Unset(t, parent + [segment]).0;
    var below := Drop(Get(t, parent).value, segment);
    UnsetThroughPrefix(t, parent, [segment]);
    assert Unset(Get(t, parent).value, [segment]) == (below, true);
    GetReplaced(t, parent, below);
    GetConcat(after, parent, [step] + rest);
    assert parent + ([step] + rest) == parent + [step] + rest;
  }

  /** Removing a key keeps every path, found or not, through the other keys of its object. */
  lemma UnsetKeepsSiblings(t: Json, parent: Path, segment: Text, other: Text, rest: Path)
    requires Get(t, parent).Some? && Get(t, parent).value.Obj? && segment in Get(t, parent).value.fields
    requires other != segment
    ensures Get(Unset(t, parent + [segment]).0, parent + [other] + rest) == Get(t, parent + [other] + rest)
  {
    var before := Get(t, parent).value;
    GetPastRemoval(t, parent, segment, other, rest);
    GetConcat(t, parent, [other] + rest);
    assert parent + ([other] + rest) == parent + [other] + rest;
    assert ([other] + rest)[1..] == rest && Child(Drop(before, segment), other) == Child(before, other);
  }

  /**
   Removing an array element keeps every path through the elements before it, and moves every
   path through those behind it down by one; a path through the end of the old array is gone.
   */
  lemma UnsetMovesSiblings(t: Json, parent: Path, segment: Text, now: Text, was: Text, rest: Path)
    requires Get(t, parent).Some? && Get(t, parent).value.Arr? && IsIndex(segment) && IsIndex(now) && IsIndex(was)
    requires Index(segment) < |Get(t, parent).value.items|
    requires Index(was) == if Index(now) < Index(segment) then Index(now) else Index(now) + 1
    ensures Get(Unset(t, parent + [segment]).0, parent + [now] + rest) == Get(t, parent + [was] + rest)
  {
    var before := Get(t, parent).value;
    GetPastRemoval(t, parent, segment, now, rest);
    GetConcat(t, parent, [was] + rest);
    assert parent + ([was] + rest) == parent + [was] + rest;
    assert ([now] + rest)[1..] == rest == ([was] + rest)[1..];
    assert Child(Drop(before, segment), now) == Child(before, was);
  }

  // A write that adds an absent key, or appends an element, under a parent that exists.
  predicate Appends(t: Json, path: Path)
    requires path != []
    decreases |path|
  {
    if |path| == 1 then
      (t.Obj? && path[0] !in t.fields) || (t.Arr? && IsIndex(path[0]) && Index(path[0]) == |t.items|)
    else
      Child(t, path[0]).Some? && Container(Child(t, path[0]).value) && Appends(Child(t, path[0]).value, path[1..])
  }

  /** Removal undoes a write exactly if the write added a key or appended an element. */
  lemma {:induction false} UnsetUndoesSet(t: Json, path: Path, value: Json)
    requires path != [] && Set(t, path, value).1 == None
    ensures Unset(Set(t, path, value).0, path).1
    ensures Unset(Set(t, path, value).0, path).0 == t <==> Appends(t, path)
    decreases |path|
  {
    GetAfterSet(t, path, value);
    UnsetIffFound(Set(t, path, value).0, path);
    if |path| == 1 {
      UndoOneStep(t, path[0], value);
    } else {
      var segment, below := path[0], Below(t, path[0], path[1]);
      var child := Set(below, path[1..], value).0;
      UnsetUndoesSet(below, path[1..], value);
      PutChild(t, segment, child, segment);
      var undone := Unset(child, path[1..]).0;
      PutTwice(t, segment, child, undone);
      UnsetKeepsContainer(child, path[1..]);
      SetGivesContainer(below, path[1..], value);
      PutChild(t, segment, undone, segment);
      if Child(t, segment).Some? && Container(Child(t, segment).value) {
        if undone == below { PutBack(t, segment); }
      }
    }
  }

  lemma UndoOneStep(t: Json, segment: Text, value: Json)
    requires t.Obj? || (t.Arr? && IsIndex(segment))
    ensures Child(Put(t, segment, value), segment).Some?
    ensures Drop(Put(t, segment, value), segment) == t <==> Appends(t, [segment])
  {
    match t
    case Obj(fields) =>
      if segment in fields {
        assert segment !in (fields[segment := value] - {segment});
      } else {
        assert fields[segment := value] - {segment} == fields;
      }
    case Arr(items) =>
      var i := Index(segment);
      if i == |items| {
        assert items + Holes(0) + [value] == items + [value];
        assert (items + [value])[..i] + (items + [value])[i + 1..] == items;
      }
  }

  lemma SetGivesContainer(t: Json, path: Path, value: Json)
    requires path != [] && Container(t)
    ensures Container(Set(t, path, value).0)
  {
  }

  lemma UnsetKeepsContainer(t: Json, path: Path)
    requires path != [] && Container(t)
    ensures Container(Unset(t, path).0)
  {
  }

  // ---------------------------------------------------------------- what a write makes

  predicate DigitsOnly(segment: Text) {
    forall i :: 0 <= i < |segment| ==> 48 <= segment[i] <= 57
  }

  // A non-empty string of decimal digits.
  predicate Digits(segment: Text) {
    segment != [] && DigitsOnly(segment)
  }

  lemma IndexIsDigits(segment: Text)
    ensures IsIndex(segment) <==> Digits(segment)
  {
    assert forall u: CodeUnit :: IsDigit(u) <==> 48 <= u <= 57;
  }

  function Power(n: nat): nat {
    if n == 0 then 1 else 10 * Power(n - 1)
  }

  // The digits with their decimal weights, the first one weighing most.
  function Decimal(segment: Text): nat
    requires DigitsOnly(segment)
  {
    if segment == [] then 0 else (segment[0] as int - 48) * Power(|segment| - 1) + Decimal(segment[1..])
  }

  lemma TenTimes(d: int, p: int)
    ensures d * (10 * p) == 10 * (d * p)
  {
  }

  lemma {:induction false} DecimalAppend(front: Text, last: CodeUnit)
    requires DigitsOnly(front) && 48 <= last <= 57
    ensures DigitsOnly(front + [last]) && Decimal(front + [last]) == 10 * Decimal(front) + (last as int - 48)
  {
    var all := front + [last];
    if front == [] {
      assert all == [last] && all[1..] == [];
      assert Decimal(all[1..]) == 0 && Power(0) == 1;
    } else {
      assert all[1..] == front[1..] + [last] && all[0] == front[0];
      DecimalAppend(front[1..], last);
      TenTimes(front[0] as int - 48, Power(|front| - 1));
      assert Power(|all| - 1) == 10 * Power(|front| - 1);
    }
  }

  /** The index of a segment is its decimal value, leading zeros included. */
  lemma {:induction false} IndexIsDecimal(segment: Text)
    requires DigitsOnly(segment)
    ensures (forall i :: 0 <= i < |segment| ==> IsDigit(segment[i])) && Index(segment) == Decimal(segment)
  {
    if segment != [] {
      var front, last := segment[..|segment| - 1], segment[|segment| - 1];
      assert segment == front + [last];
      IndexIsDecimal(front);
      DecimalAppend(front, last);
    }
  }

  lemma SetKeepsKind(t: Json, path: Path, value: Json)
    requires path != [] && Container(t)
    ensures Container(Set(t, path, value).0) && (Set(t, path, value).0.Arr? <==> t.Arr?)
  {
  }

  /**
   Behind a write every step of the way there is a container: where there was one it is of the
   same kind, and elsewhere an array if the next segment is a string of digits, and an object if
   it is not.
   */
  lemma {:induction false} SetMakesContainers(t: Json, path: Path, value: Json, i: nat)
    requires 0 < i < |path| && Set(t, path, value).1 == None
    ensures var before, after := Get(t, path[..i]), Get(Set(t, path, value).0, path[..i]);
            && after.Some? && Container(after.value)
            && (after.value.Arr? <==>
                  if before.Some? && Container(before.value) then before.value.Arr? else Digits(path[i]))
    decreases |path|
  {
    hide IsIndex, Digits;
    var below, rest := Below(t, path[0], path[1]), path[1..];
    var child := Set(below, rest, value).0;
    PutChild(t, path[0], child, path[0]);
    assert path[..i][0] == path[0] && path[..i][1..] == rest[..i - 1];
    if i == 1 {
      assert path[..1][1..] == [];
      IndexIsDigits(path[1]);
      SetKeepsKind(below, rest, value);
    } else {
      SetMakesContainers(below, rest, value, i - 1);
      assert rest[i - 1] == path[i] && rest[..i - 1] != [];
    }
  }

  // What the array is after `items[i] = value`: longer if need be, with holes in between.
  ghost predicate Assigned(items: seq<Json>, items': seq<Json>, i: nat, value: Json) {
    && |items'| == (if i < |items| then |items| else i + 1)
    && i < |items'| && items'[i] == value
    && (forall j :: 0 <= j < |items| && j != i ==> items'[j] == items[j])
    && (forall j :: |items| <= j < i ==> items'[j] == Undefined)
  }

  /** Under a parent that is found, a write assigns that one key or element, and an array grows by holes only. */
  lemma SetAssigns(t: Json, parent: Path, segment: Text, value: Json)
    requires Get(t, parent).Some? && Container(Get(t, parent).value)
    requires Get(t, parent).value.Arr? ==> IsIndex(segment)
    ensures var before, after := Get(t, parent).value, Get(Set(t, parent + [segment], value).0, parent);
            && Set(t, parent + [segment], value).1 == None && after.Some?
            && (before.Obj? ==> after.value == Obj(before.fields[segment := value]))
            && (before.Arr? ==>
                  after.value.Arr? && Assigned(before.items, after.value.items, Index(segment), value))
  {
    hide Replace, Get, IsIndex, Index;
    SetThroughPrefix(t, parent, [segment], value);
    GetReplaced(t, parent, Set(Get(t, parent).value, [segment], value).0);
  }

  /** The error of a write names a segment that is no index and meets an array on its way. */
  lemma {:induction false} ErrorNamesSegment(t: Json, path: Path, value: Json) returns (i: nat)
    requires path != [] && Container(t) && Set(t, path, value).1 != None
    ensures i < |path| && !Digits(path[i]) && Set(t, path, value).1 == Some(ExpectedIndex(path[i]))
    ensures Get(t, path[..i]).Some? && Get(t, path[..i]).value.Arr?
    decreases |path|
  {
    SetThrowsIffBlocked(t, path, value);
    IndexIsDigits(path[0]);
    hide IsIndex, Digits;
    if t.Arr? && !IsIndex(path[0]) {
      i := 0;
      assert path[..0] == [];
    } else {
      var below, rest := Below(t, path[0], path[1]), path[1..];
      SetThrowsIffBlocked(below, rest, value);
      if !(Child(t, path[0]).Some? && Container(Child(t, path[0]).value)) { FreshIsNotBlocked(rest); }
      var j := ErrorNamesSegment(below, rest, value);
      i := j + 1;
      assert path[..i][1..] == rest[..j] && path[..i][0] == path[0] && rest[j] == path[i];
    }
  }

  /** A root that is neither object nor array cannot be written into at all. */
  lemma RootMustBeContainer(t: Json, path: Path, value: Json)
    requires path != [] && !Container(t)
    ensures Set(t, path, value) == (t, Some(if |path| == 1 then CannotSet(path[0]) else CannotTraverse(path[0])))
  {
  }

  /** Reading goes one step down for each segment: by key in an object, by number in an array. */
  lemma GetStep(t: Json, path: Path, segment: Text)
    requires Get(t, path).Some?
    ensures var current := Get(t, path).value;
            && (current.Obj? ==>
                  Get(t, path + [segment])
                  == if segment in current.fields then Some(current.fields[segment]) else None)
            && (current.Arr? && Digits(segment) ==>
                  Get(t, path + [segment])
                  == if Decimal(segment) < |current.items| then Some(current.items[Decimal(segment)]) else None)
            && (current.Arr? && !Digits(segment) ==> Get(t, path + [segment]) == None)
            && (!Container(current) ==> Get(t, path + [segment]) == None)
            && Get(current, []) == Some(current)
  {
    GetConcat(t, path, [segment]);
    IndexIsDigits(segment);
    if Digits(segment) { IndexIsDecimal(segment); }
    hide IsIndex, Digits, Index;
    var child := Child(Get(t, path).value, segment);
    assert child.Some? ==> Get(child.value, []) == child;
  }

  // ---------------------------------------------------------------- the object

  // Making a container that a write goes through does not change what the write comes to.
  lemma FreshContainerIsNeutral(t: Json, path: Path, i: nat, value: Json)
    requires i + 1 < |path| && Get(t, path[..i]).Some?
    requires var current := Get(t, path[..i]).value;
             && (current.Obj? || (current.Arr? && IsIndex(path[i])))
             && !(Child(current, path[i]).Some? && Container(Child(current, path[i]).value))
    ensures var current := Get(t, path[..i]).value;
            Set(Replace(t, path[..i], Put(current, path[i], Fresh(path[i + 1]))), path, value) == Set(t, path, value)
  {
    var p, q, current := path[..i], path[i..], Get(t, path[..i]).value;
    var made := Put(current, path[i], Fresh(path[i + 1]));
    assert path == p + q && q[1] == path[i + 1];
    PutChild(current, path[i], Fresh(path[i + 1]), path[i]);
    GetReplaced(t, p, made);
    SetThroughPrefix(t, p, q, value);
    SetThroughPrefix(Replace(t, p, made), p, q, value);
    var child := Set(Fresh(q[1]), q[1..], value).0;
    PutTwice(current, path[i], Fresh(path[i + 1]), child);
    ReplaceTwice(t, p, made, Put(current, path[i], child));
  }

  lemma OneStepFurther(t: Json, path: Path, i: nat)
    requires i < |path| && Get(t, path[..i]).Some?
    ensures Get(t, path[..i + 1]) == Child(Get(t, path[..i]).value, path[i])
  {
    assert path[..i + 1] == path[..i] + [path[i]];
    GetConcat(t, path[..i], [path[i]]);
    var child := Child(Get(t, path[..i]).value, path[i]);
    assert child.Some? ==> Get(child.value, []) == child;
  }

  /**
   A config tree updated in place. A reference into the tree is the prefix of the path that
   leads there, so assigning through it replaces the value at that prefix.
   */
  class ConfigFile {
    var root: Json

    constructor (root: Json)
      ensures this.root == root
    {
      this.root := root;
    }

    method GetAtPath(path: Path) returns (found: bool, value: Json)
      ensures found == Get(root, path).Some? && (found ==> value == Get(root, path).value)
    {
      var current := root;
      assert path[0..] == path;
      for i := 0 to |path|
        invariant Get(root, path) == Get(current, path[i..])
      {
        var segment := path[i];
        assert path[i..][1..] == path[i + 1..];
        if !Container(current) {
          return false, Undefined;
        }
        if current.Arr? {
          if !IsIndex(segment) {
            return false, Undefined;
          }
          var index := Index(segment);
          if index >= |current.items| {
            return false, Undefined;
          }
          current := current.items[index];
          continue;
        }
        if segment !in current.fields {
          return false, Undefined;
        }
        current := current.fields[segment];
      }
      return true, current;
    }

    // `current[segment] = value`, `current` being the value at the given prefix.
    method Assign(prefix: Path, segment: Text, value: Json)
      requires Get(root, prefix).Some?
      requires var current := Get(root, prefix).value; current.Obj? || (current.Arr? && IsIndex(segment))
      modifies this
      ensures root == Replace(old(root), prefix, Put(Get(old(root), prefix).value, segment, value))
      ensures Get(root, prefix) == Some(Put(Get(old(root), prefix).value, segment, value))
    {
      GetReplaced(root, prefix, Put(Get(root, prefix).value, segment, value));
      root := Replace(root, prefix, Put(Get(root, prefix).value, segment, value));
    }

    method SetAtPath(path: Path, value: Json) returns (error: Option<PathError>)
      requires path != []
      modifies this
      ensures (root, error) == Set(old(root), path, value)
      ensures error.Some? && Container(old(root)) ==> root == old(root)
    {
      hide Replace, Blocked, IsIndex, Index, Put;
      if Container(root) {
        SetThrowsIffBlocked(root, path, value);
      }
      var current := root;
      var i := 0;
      while i < |path| - 1
        invariant 0 <= i <= |path| - 1
        invariant Get(root, path[..i]) == Some(current)
        invariant Container(current) || (i == 0 && root == old(root))
        invariant Set(root, path, value) == Set(old(root), path, value)
      {
        var segment := path[i];
        assert path == path[..i] + path[i..];
        if !Container(current) {
          return Some(CannotTraverse(segment));
        }
        SetThroughPrefix(root, path[..i], path[i..], value);
        if current.Arr? && !IsIndex(segment) {
          ReplaceBack(root, path[..i]);
          return Some(ExpectedIndex(segment));
        }
        var existing := Child(current, segment);
        if existing.None? || !Container(existing.value) {
          FreshContainerIsNeutral(root, path, i, value);
          PutChild(current, segment, Fresh(path[i + 1]), segment);
          Assign(path[..i], segment, Fresh(path[i + 1]));
          current := Put(current, segment, Fresh(path[i + 1]));
        }
        OneStepFurther(root, path, i);
        current := Child(current, segment).value;
        i := i + 1;
      }
      var last := path[|path| - 1];
      assert path == path[..i] + [last];
      if !Container(current) {
        return Some(CannotSet(last));
      }
      SetThroughPrefix(root, path[..i], [last], value);
      if current.Arr? && !IsIndex(last) {
        ReplaceBack(root, path[..i]);
        return Some(ExpectedIndex(last));
      }
      Assign(path[..i], last, value);
      error := None;
    }

    method UnsetAtPath(path: Path) returns (removed: bool)
      requires path != []
      modifies this
      ensures (root, removed) == Unset(old(root), path)
    {
      UnsetIffFound(root, path);
      var current := root;
      var i := 0;
      while i < |path| - 1
        invariant 0 <= i <= |path| - 1 && root == old(root)
        invariant Get(root, path[..i]) == Some(current)
      {
        var segment := path[i];
        assert path == path[..i] + path[i..];
        GetConcat(root, path[..i], path[i..]);
        OneStepFurther(root, path, i);
        if !Container(current) {
          return false;
        }
        if current.Arr? {
          if !IsIndex(segment) {
            return false;
          }
          var index := Index(segment);
          if index >= |current.items| {
            return false;
          }
          current := current.items[index];
          i := i + 1;
          continue;
        }
        if segment !in current.fields {
          return false;
        }
        current := current.fields[segment];
        i := i + 1;
      }
      var last := path[|path| - 1];
      assert path == path[..i] + [last];
      UnsetThroughPrefix(root, path[..i], [last]);
      GetConcat(root, path[..i], [last]);
      if Child(current, last).None? {
        return false;
      }
      root := Replace(root, path[..i], Drop(current, last));
      return true;
    }
  }
}
