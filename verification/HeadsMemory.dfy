/** The in-memory cache of heads: insertion order of a map kept as least-recently-used order. */
module HeadsMemory {
  import opened JsText
  import opened Collections

  const MEMORY_LIMIT: nat := 500

  /** A lower-cased player name. */
  datatype Key = Key(name: string)

  /** The keys without one of them, order kept. */
  function Without(keys: seq<Key>, key: Key): seq<Key> {
    if keys == [] then []
    else Without(keys[..|keys| - 1], key) + if keys[|keys| - 1] == key then [] else [keys[|keys| - 1]]
  }

  lemma {:induction false} WithoutMembers(keys: seq<Key>, key: Key)
    ensures forall k :: k in Without(keys, key) <==> k in keys && k != key
    ensures key !in keys ==> Without(keys, key) == keys
    ensures |Without(keys, key)| <= |keys|
  {
    if keys != [] {
      WithoutMembers(keys[..|keys| - 1], key);
      assert keys == keys[..|keys| - 1] + [keys[|keys| - 1]];
    }
  }

  lemma DistinctSnoc(keys: seq<Key>, last: Key)
    ensures NoRepeats(keys + [last]) <==> NoRepeats(keys) && last !in keys
  {
    var all := keys + [last];
    if NoRepeats(all) {
      assert forall i :: 0 <= i < |keys| ==> keys[i] == all[i] && all[|keys|] == last;
    }
  }

  lemma {:induction false} WithoutDistinct(keys: seq<Key>, key: Key)
    requires NoRepeats(keys)
    ensures NoRepeats(Without(keys, key))
    ensures |Without(keys, key)| == |keys| - if key in keys then 1 else 0
  {
    if keys != [] {
      var init, last := keys[..|keys| - 1], keys[|keys| - 1];
      assert keys == init + [last];
      DistinctSnoc(init, last);
      WithoutDistinct(init, key);
      WithoutMembers(init, key);
      DistinctSnoc(Without(init, key), last);
    }
  }

  /** Last keys of a sequence, at most n. */
  function LastOf(keys: seq<Key>, n: nat): seq<Key> {
    if |keys| <= n then keys else keys[|keys| - n..]
  }

  /** The map: `order` is its insertion order, `entries` what it holds. */
  class Memory<Entry> {
    var order: seq<Key>
    var entries: map<Key, Entry>

    ghost predicate Valid()
      reads this
    {
      NoRepeats(order) && (forall key :: key in order <==> key in entries)
    }

    constructor ()
      ensures Valid() && order == [] && entries == map[]
    {
      order, entries := [], map[];
    }

    method Delete(key: Key)
      requires Valid()
      modifies this
      ensures Valid() && order == Without(old(order), key) && entries == old(entries) - {key}
    {
      WithoutDistinct(order, key);
      WithoutMembers(order, key);
      order := Without(order, key);
      entries := entries - {key};
    }

    method Insert(key: Key, entry: Entry)
      requires Valid() && key !in order
      modifies this
      ensures Valid() && order == old(order) + [key] && entries == old(entries)[key := entry]
    {
      DistinctSnoc(order, key);
      order := order + [key];
      entries := entries[key := entry];
    }

    /** A hit moves the key to the end. */
    method FromMemory(key: Key) returns (entry: Option<Entry>)
      requires Valid()
      modifies this
      ensures Valid() && entries == old(entries)
      ensures entry == if key in old(entries) then Some(old(entries)[key]) else None
      ensures order == Next(old(order), Lookup(key))
    {
      if key !in entries { return None; }
      WithoutMembers(order, key);
      var found := entries[key];
      Delete(key);
      Insert(key, found);
      assert entries == old(entries);
      return Some(found);
    }

    /** Evicts the oldest key when the map has outgrown its limit. */
    method TrimToLimit()
      requires Valid() && |order| <= MEMORY_LIMIT + 1
      modifies this
      ensures Valid() && order == LastOf(old(order), MEMORY_LIMIT)
      ensures forall k :: k in order ==> k in old(entries) && entries[k] == old(entries)[k]
    {
      if |order| > MEMORY_LIMIT {
        var oldest := order[0];
        WithoutFirst(order);
        WithoutMembers(order, oldest);
        Delete(oldest);
      }
    }

    method Remember(key: Key, entry: Entry)
      requires Valid() && |order| <= MEMORY_LIMIT
      modifies this
      ensures Valid() && order == Next(old(order), Store(key))
      ensures key in order ==> entries[key] == entry
      ensures forall k :: k in order && k != key ==> k in old(entries) && entries[k] == old(entries)[k]
    {
      WithoutMembers(order, key);
      Delete(key);
      Insert(key, entry);
      TrimToLimit();
    }
  }

  lemma {:induction false} WithoutConcat(a: seq<Key>, b: seq<Key>, key: Key)
    ensures Without(a + b, key) == Without(a, key) + Without(b, key)
  {
    if b == [] {
      assert a + b == a;
    } else {
      assert (a + b)[..|a + b| - 1] == a + b[..|b| - 1];
      WithoutConcat(a, b[..|b| - 1], key);
    }
  }

  lemma WithoutFirst(keys: seq<Key>)
    requires keys != [] && NoRepeats(keys)
    ensures Without(keys, keys[0]) == keys[1..]
  {
    assert keys == [keys[0]] + keys[1..];
    WithoutConcat([keys[0]], keys[1..], keys[0]);
    assert Without([keys[0]], keys[0]) == [];
  }

  // ----- histories

  /** A lookup that may hit, or a store of an entry. */
  datatype Op = Lookup(key: Key) | Store(key: Key)

  /** Order of the cache after an operation, as the methods above specify it. */
  function Next(order: seq<Key>, op: Op): seq<Key> {
    match op
    case Lookup(key) => if key in order then Without(order, key) + [key] else order
    case Store(key) => LastOf(Without(order, key) + [key], MEMORY_LIMIT)
  }

  function Run(ops: seq<Op>): seq<Key> {
    if ops == [] then [] else Next(Run(ops[..|ops| - 1]), ops[|ops| - 1])
  }

  /** The keys touched in a run: stored, or looked up and found. */
  function Touches(ops: seq<Op>): seq<Key> {
    if ops == [] then []
    else
      var init, op := ops[..|ops| - 1], ops[|ops| - 1];
      Touches(init) + if op.Store? || op.key in Run(init) then [op.key] else []
  }

  /** Distinct keys in the order of their last touch. */
  function ByLastTouch(touches: seq<Key>): seq<Key> {
    if touches == [] then []
    else Without(ByLastTouch(touches[..|touches| - 1]), touches[|touches| - 1]) + [touches[|touches| - 1]]
  }

  lemma {:induction false} ByLastTouchHolds(touches: seq<Key>)
    ensures NoRepeats(ByLastTouch(touches)) && forall key :: key in ByLastTouch(touches) <==> key in touches
  {
    if touches != [] {
      var init, last := touches[..|touches| - 1], touches[|touches| - 1];
      var before := ByLastTouch(init);
      ByLastTouchHolds(init);
      assert touches == init + [last];
      assert ByLastTouch(touches) == Without(before, last) + [last];
      hide ByLastTouch, Without, NoRepeats;
      WithoutDistinct(before, last);
      WithoutMembers(before, last);
      DistinctSnoc(Without(before, last), last);
    }
  }

  /** Moving one key to the end and cutting to n keeps the last n of the whole recency order. */
  lemma TouchKeepsLast(recent: seq<Key>, n: nat, key: Key)
    requires NoRepeats(recent) && n > 0
    ensures var kept := LastOf(recent, n);
            LastOf(Without(kept, key) + [key], n) == LastOf(Without(recent, key) + [key], n)
    ensures var kept := LastOf(recent, n);
            key in kept ==> Without(kept, key) + [key] == LastOf(Without(recent, key) + [key], n)
  {
    if |recent| > n {
      var a, kept := recent[..|recent| - n], recent[|recent| - n..];
      assert recent == a + kept;
      TouchAfterCut(a, kept, key);
      WithoutDistinct(kept, key);
      WithoutMembers(kept, key);
      LastAfterOne(kept, key);
    } else {
      WithoutDistinct(recent, key);
    }
  }

  lemma TouchAfterCut(a: seq<Key>, kept: seq<Key>, key: Key)
    requires NoRepeats(a + kept) && kept != []
    ensures LastOf(Without(a + kept, key) + [key], |kept|)
         == if key in kept then Without(kept, key) + [key] else kept[1..] + [key]
  {
    DistinctParts(a, kept);
    WithoutConcat(a, kept, key);
    WithoutMembers(a, key);
    WithoutMembers(kept, key);
    WithoutDistinct(kept, key);
    if key in kept {
      LastOfConcat(a, Without(kept, key), key);
    } else {
      LastOfConcat(Without(a, key) + [kept[0]], kept[1..], key);
      SplitFirst(Without(a, key), kept);
    }
  }

  lemma SplitFirst(a: seq<Key>, b: seq<Key>)
    requires b != []
    ensures a + b == (a + [b[0]]) + b[1..]
  {
  }

  lemma HeadOrTail(keys: seq<Key>)
    requires keys != []
    ensures forall k :: k in keys ==> k == keys[0] || k in keys[1..]
  {
    assert keys == [keys[0]] + keys[1..];
  }

  lemma LastAfterOne(keys: seq<Key>, key: Key)
    requires keys != []
    ensures LastOf(keys + [key], |keys|) == keys[1..] + [key]
  {
  }

  lemma DistinctParts(a: seq<Key>, b: seq<Key>)
    requires NoRepeats(a + b)
    ensures NoRepeats(a) && NoRepeats(b) && forall key :: key in a ==> key !in b
  {
    var all := a + b;
    assert forall i :: 0 <= i < |a| ==> a[i] == all[i];
    assert forall i :: 0 <= i < |b| ==> b[i] == all[|a| + i];
  }

  lemma LastOfConcat(a: seq<Key>, b: seq<Key>, key: Key)
    ensures LastOf(a + b + [key], |b| + 1) == b + [key]
  {
    assert a + b + [key] == a + (b + [key]);
  }

  lemma {:induction false} CacheIsLast(ops: seq<Op>)
    ensures Run(ops) == LastOf(ByLastTouch(Touches(ops)), MEMORY_LIMIT)
  {
    if ops != [] {
      var init, op := ops[..|ops| - 1], ops[|ops| - 1];
      var recent := ByLastTouch(Touches(init));
      CacheIsLast(init);
      ByLastTouchHolds(Touches(init));
      if op.Store? || op.key in Run(init) {
        TouchKeepsLast(recent, MEMORY_LIMIT, op.key);
        assert Touches(ops)[..|Touches(ops)| - 1] == Touches(init);
        assert ByLastTouch(Touches(ops)) == Without(recent, op.key) + [op.key];
      } else {
        assert Touches(ops) == Touches(init);
      }
    }
  }

  /** After any history the cache holds exactly the at most 500 keys touched last, in touch order. */
  lemma CacheIsMostRecent(ops: seq<Op>)
    ensures var recent := ByLastTouch(Touches(ops));
            Run(ops) == if |recent| <= 500 then recent else recent[|recent| - 500..]
  {
    hide Run, ByLastTouch, Touches;
    CacheIsLast(ops);
  }

  /** The key just touched is never the one evicted. */
  lemma TouchedStays(ops: seq<Op>, op: Op)
    requires op.Store? || op.key in Run(ops)
    ensures op.key in Run(ops + [op]) && |Run(ops + [op])| <= 500
    ensures forall key :: key in Run(ops) && key !in Run(ops + [op]) ==> key == Run(ops)[0]
  {
    var order := Run(ops);
    assert (ops + [op])[..|ops|] == ops;
    CacheIsLast(ops);
    CacheIsLast(ops + [op]);
    var moved := Without(order, op.key) + [op.key];
    assert op.key == moved[|moved| - 1];
    WithoutMembers(order, op.key);
    if op.Store? {
      CacheDistinct(ops);
      EvictsOldest(order, op.key);
    }
  }

  lemma CacheDistinct(ops: seq<Op>)
    ensures NoRepeats(Run(ops)) && |Run(ops)| <= MEMORY_LIMIT
  {
    CacheIsLast(ops);
    var recent := ByLastTouch(Touches(ops));
    ByLastTouchHolds(Touches(ops));
    if |recent| > MEMORY_LIMIT {
      var cut := |recent| - MEMORY_LIMIT;
      assert recent == recent[..cut] + recent[cut..];
      DistinctParts(recent[..cut], recent[cut..]);
    }
  }

  lemma EvictsOldest(order: seq<Key>, key: Key)
    requires NoRepeats(order) && |order| <= MEMORY_LIMIT
    ensures var after := LastOf(Without(order, key) + [key], MEMORY_LIMIT);
            key in after && forall k :: k in order && k !in after ==> k == order[0]
  {
    var moved := Without(order, key) + [key];
    var after := LastOf(moved, MEMORY_LIMIT);
    assert after[|after| - 1] == key;
    WithoutDistinct(order, key);
    WithoutMembers(order, key);
    if |moved| > MEMORY_LIMIT {
      LastAfterOne(order, key);
      HeadOrTail(order);
      assert forall k :: k in order[1..] ==> k in order[1..] + [key];
    } else {
      assert forall k :: k in order ==> k in moved;
    }
  }
}
