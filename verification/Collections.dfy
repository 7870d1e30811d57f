/** Sequences without repeats, and how many elements sets hold. */
module Collections {

  predicate NoRepeats<T(==)>(items: seq<T>) {
    forall i, j :: 0 <= i < j < |items| ==> items[i] != items[j]
  }

  lemma {:induction false} SubsetCount<T>(a: set<T>, b: set<T>)
    requires a <= b
    ensures |a| <= |b|
    decreases |a|
  {
    if a != {} {
      var x :| x in a;
      SubsetCount(a - {x}, b - {x});
    }
  }

  /** A subset with as many elements is the whole set. */
  lemma FullSubset<T>(a: set<T>, b: set<T>)
    requires a <= b && |a| == |b|
    ensures a == b
  {
    if x :| x in b && x !in a {
      SubsetCount(a, b - {x});
    }
  }

  function Elements<T(==)>(items: seq<T>): set<T> {
    set x | x in items
  }

  lemma ElementsSnoc<T>(items: seq<T>)
    requires items != []
    ensures Elements(items) == Elements(items[..|items| - 1]) + {items[|items| - 1]}
  {
    assert items == items[..|items| - 1] + [items[|items| - 1]];
  }

  lemma ElementsCons<T>(items: seq<T>)
    requires items != []
    ensures Elements(items) == {items[0]} + Elements(items[1..])
  {
    assert items == [items[0]] + items[1..];
  }

  /** A list has at most as many elements as places, exactly as many when nothing repeats. */
  lemma {:induction false} ElementsCount<T>(items: seq<T>)
    ensures |Elements(items)| <= |items|
    ensures |Elements(items)| == |items| <==> NoRepeats(items)
  {
    if items == [] {
      assert Elements(items) == {};
    } else {
      var init, last := items[..|items| - 1], items[|items| - 1];
      ElementsCount(init);
      ElementsSnoc(items);
      if last in init {
        var i :| 0 <= i < |init| && init[i] == last;
        assert items[i] == items[|items| - 1];
        assert Elements(items) == Elements(init);
      } else {
        assert forall i, j :: 0 <= i < j < |init| ==> items[i] == init[i] && items[j] == init[j];
        assert forall i :: 0 <= i < |init| ==> items[i] == init[i] && items[i] in init;
        NoRepeatsSnoc(items);
      }
    }
  }

  lemma NoRepeatsSnoc<T>(items: seq<T>)
    requires items != []
    ensures NoRepeats(items) <==> NoRepeats(items[..|items| - 1]) && items[|items| - 1] !in items[..|items| - 1]
  {
  }
}
