/** In which order the runtime lists the keys of an effective record. */
module KeyOrder {
  import opened JsText
  import opened Collections
  import opened Numerals
  import opened PropertyLines
  import opened PropertyEdits

  const LAST_INDEX: nat := 0xFFFF_FFFE

  /** An array index of ECMAScript: a decimal numeral without leading zeros, up to 2^32 - 2. */
  predicate IsIndex(key: Text) {
    key == Numeral(Value(key, 10), 10) && Value(key, 10) <= LAST_INDEX
  }

  /** Just the decimal numerals 0, 1, ... 4294967294 are array indices. */
  lemma IndicesAreNumerals(key: Text)
    ensures IsIndex(key) <==> exists n: nat :: n <= 4294967294 && key == Numeral(n, 10)
  {
    if n: nat :| n <= 4294967294 && key == Numeral(n, 10) {
      NumeralReads(n, 10);
    }
  }

  /** The keys of the lines as `Map.set` collects them: where each is met first. */
  function FirstSeen(lines: seq<Line>): seq<Text> {
    if lines == [] then []
    else
      var before, last := FirstSeen(lines[..|lines| - 1]), lines[|lines| - 1];
      if last.Entry? && last.key !in before then before + [last.key] else before
  }

  function Insert(sorted: seq<Text>, key: Text): seq<Text> {
    if sorted == [] || Value(key, 10) < Value(sorted[0], 10) then [key] + sorted
    else [sorted[0]] + Insert(sorted[1..], key)
  }

  /** The array indices among the keys, by growing value. */
  function Indices(keys: seq<Text>): seq<Text> {
    if keys == [] then []
    else
      var before, last := Indices(keys[..|keys| - 1]), keys[|keys| - 1];
      if IsIndex(last) then Insert(before, last) else before
  }

  /** The other keys, in the order they came. */
  function Named(keys: seq<Text>): seq<Text> {
    if keys == [] then []
    else
      var before, last := Named(keys[..|keys| - 1]), keys[|keys| - 1];
      if IsIndex(last) then before else before + [last]
  }

  /** `Object.keys` of an object whose properties were created in this order. */
  function Enumerated(keys: seq<Text>): seq<Text> {
    Indices(keys) + Named(keys)
  }

  // ----- what that order is

  /** Line of the first entry of the key, |lines| when there is none. */
  function FirstIndex(lines: seq<Line>, key: Text): (i: nat)
    ensures i <= |lines|
    ensures i < |lines| ==> IsEntryOf(lines[i], key)
    ensures forall j :: 0 <= j < i ==> !IsEntryOf(lines[j], key)
  {
    if lines == [] || IsEntryOf(lines[0], key) then 0
    else
      assert forall j :: 1 <= j < |lines| ==> lines[j] == lines[1..][j - 1];
      1 + FirstIndex(lines[1..], key)
  }

  /** Array indices by value, then the other keys by their first line. */
  predicate Precedes(lines: seq<Line>, a: Text, b: Text) {
    if IsIndex(a) then IsIndex(b) ==> Value(a, 10) < Value(b, 10)
    else !IsIndex(b) && FirstIndex(lines, a) < FirstIndex(lines, b)
  }

  ghost predicate InEnumerationOrder(lines: seq<Line>, keys: seq<Text>) {
    forall i, j :: 0 <= i < j < |keys| ==> Precedes(lines, keys[i], keys[j])
  }

  /** Keys by growing first line. */
  predicate ByLine(lines: seq<Line>, keys: seq<Text>) {
    forall i, j :: 0 <= i < j < |keys| ==> FirstIndex(lines, keys[i]) < FirstIndex(lines, keys[j])
  }

  lemma {:induction false} FirstSeenKeys(lines: seq<Line>)
    ensures Elements(FirstSeen(lines)) == ToRecord(lines).Keys && NoRepeats(FirstSeen(lines))
  {
    if lines != [] {
      var before, last := FirstSeen(lines[..|lines| - 1]), lines[|lines| - 1];
      FirstSeenKeys(lines[..|lines| - 1]);
      if last.Entry? && last.key !in before {
        var all := before + [last.key];
        assert all[..|all| - 1] == before;
        ElementsSnoc(all);
        NoRepeatsSnoc(all);
      } else if last.Entry? {
        assert last.key in Elements(before);
      }
    }
  }

  lemma FirstIndexOfInit(lines: seq<Line>, key: Text)
    requires lines != [] && FirstIndex(lines[..|lines| - 1], key) < |lines| - 1
    ensures FirstIndex(lines, key) == FirstIndex(lines[..|lines| - 1], key)
  {
    var init := lines[..|lines| - 1];
    var i := FirstIndex(init, key);
    assert IsEntryOf(lines[i], key);
    assert forall j :: 0 <= j < i ==> lines[j] == init[j];
  }

  /** Keys met later have later first lines. */
  lemma {:induction false} FirstSeenByLine(lines: seq<Line>)
    ensures forall key :: key in FirstSeen(lines) ==> FirstIndex(lines, key) < |lines|
    ensures ByLine(lines, FirstSeen(lines))
  {
    if lines != [] {
      var init, last := lines[..|lines| - 1], lines[|lines| - 1];
      var before := FirstSeen(init);
      FirstSeenByLine(init);
      forall key | key in before
        ensures FirstIndex(lines, key) == FirstIndex(init, key)
      {
        FirstIndexOfInit(lines, key);
      }
      if last.Entry? && last.key !in before {
        LastIsNew(lines, before);
      }
    }
  }

  lemma LastIsNew(lines: seq<Line>, before: seq<Text>)
    requires lines != [] && before == FirstSeen(lines[..|lines| - 1])
    requires lines[|lines| - 1].Entry? && lines[|lines| - 1].key !in before
    ensures FirstIndex(lines, lines[|lines| - 1].key) == |lines| - 1
  {
    var init, key := lines[..|lines| - 1], lines[|lines| - 1].key;
    FirstSeenKeys(init);
    assert key !in Elements(before);
    EntriesAreInRecord(init);
    assert forall i :: 0 <= i < |init| ==> lines[i] == init[i] && !IsEntryOf(lines[i], key);
    assert IsEntryOf(lines[|lines| - 1], key);
  }

  lemma {:induction false} EntriesAreInRecord(lines: seq<Line>)
    ensures forall i :: 0 <= i < |lines| && lines[i].Entry? ==> lines[i].key in ToRecord(lines)
  {
    if lines != [] {
      EntriesAreInRecord(lines[..|lines| - 1]);
    }
  }

  lemma {:induction false} InsertSorts(sorted: seq<Text>, key: Text)
    requires forall i, j :: 0 <= i < j < |sorted| ==> Value(sorted[i], 10) < Value(sorted[j], 10)
    requires forall x :: x in sorted ==> Value(x, 10) != Value(key, 10)
    ensures var r := Insert(sorted, key);
            && (forall x :: x in r <==> x in sorted || x == key)
            && (forall i, j :: 0 <= i < j < |r| ==> Value(r[i], 10) < Value(r[j], 10))
  {
    hide Value;
    if sorted != [] && !(Value(key, 10) < Value(sorted[0], 10)) {
      var rest := sorted[1..];
      assert sorted == [sorted[0]] + rest;
      InsertSorts(rest, key);
      var r := Insert(rest, key);
      forall j | 0 <= j < |r|
        ensures Value(sorted[0], 10) < Value(r[j], 10)
      {
        assert r[j] in r;
      }
    }
  }

  lemma {:induction false} IndicesSort(keys: seq<Text>)
    requires NoRepeats(keys)
    ensures var r := Indices(keys);
            && (forall x :: x in r <==> x in keys && IsIndex(x))
            && (forall i, j :: 0 <= i < j < |r| ==> Value(r[i], 10) < Value(r[j], 10))
  {
    if keys != [] {
      var init, last := keys[..|keys| - 1], keys[|keys| - 1];
      assert keys == init + [last];
      NoRepeatsSnoc(keys);
      IndicesSort(init);
      if IsIndex(last) {
        forall x | x in Indices(init)
          ensures Value(x, 10) != Value(last, 10)
        {
          assert IsIndex(x) && x != last;
        }
        InsertSorts(Indices(init), last);
      }
    }
  }

  lemma {:induction false} NamedKeeps(keys: seq<Text>)
    ensures forall x :: x in Named(keys) <==> x in keys && !IsIndex(x)
  {
    if keys != [] {
      assert keys == keys[..|keys| - 1] + [keys[|keys| - 1]];
      NamedKeeps(keys[..|keys| - 1]);
    }
  }

  lemma ByLineSnoc(lines: seq<Line>, keys: seq<Text>, key: Text)
    requires ByLine(lines, keys)
    requires forall x :: x in keys ==> FirstIndex(lines, x) < FirstIndex(lines, key)
    ensures ByLine(lines, keys + [key])
  {
  }

  lemma {:induction false} NamedKeepsLines(lines: seq<Line>, keys: seq<Text>)
    requires ByLine(lines, keys)
    ensures ByLine(lines, Named(keys))
  {
    hide FirstIndex, IsIndex;
    if keys != [] {
      var init, last := keys[..|keys| - 1], keys[|keys| - 1];
      NamedKeepsLines(lines, init);
      NamedKeeps(init);
      forall x | x in Named(init)
        ensures FirstIndex(lines, x) < FirstIndex(lines, last)
      {
        var k :| 0 <= k < |init| && init[k] == x;
        assert keys[k] == x;
      }
      ByLineSnoc(lines, Named(init), last);
    }
  }

  /** Two lists one after the other. */
  lemma Concatenated(lines: seq<Line>, a: seq<Text>, b: seq<Text>)
    requires InEnumerationOrder(lines, a) && InEnumerationOrder(lines, b)
    requires forall i, j :: 0 <= i < |a| && 0 <= j < |b| ==> Precedes(lines, a[i], b[j])
    ensures InEnumerationOrder(lines, a + b)
  {
  }

  lemma OrderedHasNoRepeats(lines: seq<Line>, keys: seq<Text>)
    requires InEnumerationOrder(lines, keys)
    ensures NoRepeats(keys)
  {
    forall i, j | 0 <= i < j < |keys|
      ensures keys[i] != keys[j]
    {
      assert Precedes(lines, keys[i], keys[j]);
    }
  }

  lemma IndicesInOrder(lines: seq<Line>, keys: seq<Text>)
    requires forall x :: x in keys ==> IsIndex(x)
    requires forall i, j :: 0 <= i < j < |keys| ==> Value(keys[i], 10) < Value(keys[j], 10)
    ensures InEnumerationOrder(lines, keys)
  {
    hide IsIndex, Value;
    assert forall i :: 0 <= i < |keys| ==> keys[i] in keys;
  }

  lemma NamedInOrder(lines: seq<Line>, keys: seq<Text>)
    requires forall x :: x in keys ==> !IsIndex(x)
    requires ByLine(lines, keys)
    ensures InEnumerationOrder(lines, keys)
  {
    hide IsIndex, FirstIndex;
    assert forall i :: 0 <= i < |keys| ==> keys[i] in keys;
  }

  lemma IndicesFirst(lines: seq<Line>, a: seq<Text>, b: seq<Text>)
    requires forall x :: x in a ==> IsIndex(x)
    requires forall x :: x in b ==> !IsIndex(x)
    ensures forall i, j :: 0 <= i < |a| && 0 <= j < |b| ==> Precedes(lines, a[i], b[j])
  {
    hide IsIndex, FirstIndex, Value;
    assert forall i :: 0 <= i < |a| ==> a[i] in a;
    assert forall j :: 0 <= j < |b| ==> b[j] in b;
  }

  /** The listing holds each key of the record once, array indices by value, the others by their first line. */
  lemma EnumerationOrder(lines: seq<Line>)
    ensures var keys := Enumerated(FirstSeen(lines));
            NoRepeats(keys) && Elements(keys) == ToRecord(lines).Keys && InEnumerationOrder(lines, keys)
  {
    var seen := FirstSeen(lines);
    FirstSeenKeys(lines);
    IndicesSort(seen);
    NamedKeeps(seen);
    FirstSeenByLine(lines);
    NamedKeepsLines(lines, seen);
    hide Indices, Named, FirstSeen, ToRecord, Precedes, IsIndex, FirstIndex, Value;
    IndicesInOrder(lines, Indices(seen));
    NamedInOrder(lines, Named(seen));
    IndicesFirst(lines, Indices(seen), Named(seen));
    Concatenated(lines, Indices(seen), Named(seen));
    OrderedHasNoRepeats(lines, Enumerated(seen));
    assert forall x :: x in Enumerated(seen) <==> x in seen;
    assert Elements(Enumerated(seen)) == Elements(seen);
  }

  /** And that is the only listing in this order: it is the order, not one of several. */
  lemma {:induction false} OrderIsUnique(lines: seq<Line>, a: seq<Text>, b: seq<Text>)
    requires InEnumerationOrder(lines, a) && InEnumerationOrder(lines, b) && Elements(a) == Elements(b)
    ensures a == b
    decreases |a|
  {
    if a == [] || b == [] {
      NoElements(a);
      NoElements(b);
    } else {
      assert a[0] in a && b[0] in b;
      FirstComesFirst(lines, a, b[0]);
      FirstComesFirst(lines, b, a[0]);
      TailElements(lines, a);
      TailElements(lines, b);
      OrderIsUnique(lines, a[1..], b[1..]);
      assert a == [a[0]] + a[1..] && b == [b[0]] + b[1..];
    }
  }

  lemma FirstComesFirst(lines: seq<Line>, keys: seq<Text>, key: Text)
    requires keys != [] && InEnumerationOrder(lines, keys) && key in Elements(keys)
    ensures keys[0] == key || Precedes(lines, keys[0], key)
  {
    var i :| 0 <= i < |keys| && keys[i] == key;
  }

  lemma NoElements(keys: seq<Text>)
    ensures keys == [] <==> Elements(keys) == {}
  {
    if keys != [] { assert keys[0] in Elements(keys); }
  }

  lemma TailElements(lines: seq<Line>, keys: seq<Text>)
    requires keys != [] && InEnumerationOrder(lines, keys)
    ensures Elements(keys[1..]) == Elements(keys) - {keys[0]} && InEnumerationOrder(lines, keys[1..])
  {
    var rest := keys[1..];
    OrderedHasNoRepeats(lines, keys);
    ElementsCons(keys);
    hide Precedes;
    assert forall i :: 0 <= i < |rest| ==> rest[i] == keys[i + 1];
    assert keys[0] !in rest;
  }
}
