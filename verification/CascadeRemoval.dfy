/** Removing a content record with everything installed for it, over any dependency graph. */
module CascadeRemoval {
  import opened JsText
  import opened Collections

  /** `dependencyOf` is the record this one was installed for. */
  datatype Record = Record(fileName: string, dependencyOf: Option<Id>)

  type Records = map<Id, Record>

  predicate DependsOn(records: Records, id: Id, parent: Id) {
    id in records && records[id].dependencyOf == Some(parent)
  }

  function Dependants(records: Records, parent: Id): set<Id> {
    set id | id in records && records[id].dependencyOf == Some(parent)
  }

  // ----- reachability through dependants

  ghost predicate IsChain(records: Records, path: seq<Id>) {
    |path| > 0 && forall i :: 0 < i < |path| ==> DependsOn(records, path[i], path[i - 1])
  }

  ghost predicate ChainTo(records: Records, path: seq<Id>, from: Id, to: Id) {
    IsChain(records, path) && path[0] == from && path[|path| - 1] == to
  }

  /** `to` was installed for `from`, directly or through others. */
  ghost predicate Reachable(records: Records, from: Id, to: Id) {
    exists path :: ChainTo(records, path, from, to)
  }

  lemma ReachSelf(records: Records, id: Id)
    ensures Reachable(records, id, id)
  {
    assert ChainTo(records, [id], id, id);
  }

  lemma ReachThroughFirst(records: Records, from: Id, next: Id, to: Id)
    requires DependsOn(records, next, from) && Reachable(records, next, to)
    ensures Reachable(records, from, to)
  {
    var path :| ChainTo(records, path, next, to);
    assert ChainTo(records, [from] + path, from, to);
  }

  lemma ReachThroughLast(records: Records, from: Id, last: Id, to: Id)
    requires Reachable(records, from, last) && DependsOn(records, to, last)
    ensures Reachable(records, from, to)
  {
    var path :| ChainTo(records, path, from, last);
    assert ChainTo(records, path + [to], from, to);
  }

  /** A set that holds the start and every dependant of its members holds all that is reachable. */
  lemma {:induction false} ClosedHoldsChain(records: Records, ids: set<Id>, path: seq<Id>)
    requires IsChain(records, path) && path[0] in ids
    requires forall id, child :: id in ids && DependsOn(records, child, id) ==> child in ids
    ensures path[|path| - 1] in ids
  {
    if |path| > 1 {
      assert DependsOn(records, path[1], path[0]);
      assert forall i :: 0 < i < |path| - 1 ==> DependsOn(records, path[1..][i], path[1..][i - 1]);
      ClosedHoldsChain(records, ids, path[1..]);
    }
  }

  /** The ids one recursion goes over, shared by reference. */
  class Visited {
    var ids: set<Id>

    constructor ()
      ensures ids == {}
    {
      ids := {};
    }
  }

  class ContentInstaller {
    var records: Records
    ghost var deletions: seq<Id>

    constructor (records: Records)
      ensures this.records == records && deletions == []
    {
      this.records, deletions := records, [];
    }

    /** The rows that depend on a record, in whatever order the store gives them. */
    method ListDependants(parent: Id) returns (rows: seq<Id>)
      ensures (set id | id in rows) == Dependants(records, parent)
    {
      rows := [];
      var rest := Dependants(records, parent);
      while rest != {}
        invariant (set id | id in rows) + rest == Dependants(records, parent)
        decreases |rest|
      {
        var id :| id in rest;
        rows := rows + [id];
        rest := rest - {id};
      }
    }

    method DeleteRecord(id: Id)
      modifies this
      ensures records == old(records) - {id} && deletions == old(deletions) + [id]
    {
      records := records - {id};
      deletions := deletions + [id];
    }

    /**
     * One call of the recursion. `graph` is the store as it was at the start; what is gone from it was visited.
     * The call sweeps its record and, cascading, only what is reachable from it.
     */
    method RemoveVisiting(record: Id, cascade: bool, visited: Visited, ghost graph: Records, ghost universe: set<Id>)
      requires graph.Keys <= universe && record in universe && visited.ids <= universe
      requires IsRest(graph, records, visited.ids)
      modifies this, visited
      ensures visited.ids <= universe && record in visited.ids
      ensures IsRest(graph, records, visited.ids)
      ensures old(deletions) <= deletions
      ensures Swept(old(records), records, old(visited.ids), visited.ids, deletions[|old(deletions)|..])
      ensures cascade ==> Closed(graph, old(visited.ids), visited.ids)
      ensures if cascade then AllReachable(graph, record, visited.ids - old(visited.ids))
              else visited.ids == old(visited.ids) + {record}
      decreases |universe - visited.ids|, 0
    {
      if record in visited.ids {
        NothingSwept(graph, records, record, visited.ids, deletions);
        return;
      }
      ghost var before, had, gone := visited.ids, records, deletions;
      visited.ids := visited.ids + {record};
      hide Closed, AllReachable, Reachable, Swept;
      FewerLeft(universe, before, record);
      NothingSwept(graph, had, record, visited.ids, gone);
      if cascade {
        RemoveDependants(record, visited, graph, universe);
        CloseRecord(graph, record, before, visited.ids);
      }
      FinishRecord(record, had, before, visited.ids, gone);
    }

    /** Deletes the record itself, once its dependants are swept. */
    method FinishRecord(record: Id, ghost had: Records, ghost before: set<Id>, ghost after: set<Id>,
                        ghost gone: seq<Id>)
      requires record !in before && record in after && gone <= deletions
      requires Swept(had, records, before + {record}, after, deletions[|gone|..])
      modifies this
      ensures records == old(records) - {record}
      ensures gone <= deletions
      ensures Swept(had, records, before, after, deletions[|gone|..])
    {
      ghost var swept := deletions[|gone|..];
      DeleteRecord(record);
      assert deletions[|gone|..] == swept + [record];
      SweepRecord(had, records, before, after, swept, record);
    }

    method RemoveDependants(record: Id, visited: Visited, ghost graph: Records, ghost universe: set<Id>)
      requires graph.Keys <= universe && visited.ids <= universe && record in visited.ids
      requires IsRest(graph, records, visited.ids)
      modifies this, visited
      ensures visited.ids <= universe
      ensures IsRest(graph, records, visited.ids)
      ensures old(deletions) <= deletions
      ensures Swept(old(records), records, old(visited.ids), visited.ids, deletions[|old(deletions)|..])
      ensures Closed(graph, old(visited.ids), visited.ids)
      ensures AllReachable(graph, record, visited.ids - old(visited.ids))
      ensures forall child :: DependsOn(graph, child, record) ==> child in visited.ids
      decreases |universe - visited.ids|, 2
    {
      hide Closed, AllReachable, Reachable, Swept;
      var rows := ListDependants(record);
      ghost var before, had, gone := visited.ids, records, deletions;
      NothingSwept(graph, had, record, before, gone);
      var i := 0;
      while i < |rows|
        invariant 0 <= i <= |rows|
        invariant before <= visited.ids <= universe
        invariant IsRest(graph, records, visited.ids)
        invariant forall k :: 0 <= k < i ==> rows[k] in visited.ids
        invariant gone <= deletions
        invariant Swept(had, records, before, visited.ids, deletions[|gone|..])
        invariant Closed(graph, before, visited.ids)
        invariant AllReachable(graph, record, visited.ids - before)
      {
        RowDepends(graph, had, before, record, rows, i);
        FewerStill(universe, before, visited.ids);
        RemoveRow(rows[i], record, visited, graph, universe, had, before, gone);
        i := i + 1;
      }
      DependantsVisited(graph, had, before, visited.ids, record, rows);
    }

    /** The recursive call for one dependant, added to what the sweep has done since `before`. */
    method RemoveRow(row: Id, record: Id, visited: Visited, ghost graph: Records, ghost universe: set<Id>,
                     ghost had: Records, ghost before: set<Id>, ghost gone: seq<Id>)
      requires graph.Keys <= universe && before <= visited.ids <= universe
      requires IsRest(graph, records, visited.ids) && DependsOn(graph, row, record)
      requires gone <= deletions && Swept(had, records, before, visited.ids, deletions[|gone|..])
      requires Closed(graph, before, visited.ids) && AllReachable(graph, record, visited.ids - before)
      modifies this, visited
      ensures old(visited.ids) <= visited.ids <= universe && row in visited.ids
      ensures IsRest(graph, records, visited.ids)
      ensures old(deletions) <= deletions && gone <= deletions
      ensures Swept(had, records, before, visited.ids, deletions[|gone|..])
      ensures Closed(graph, before, visited.ids) && AllReachable(graph, record, visited.ids - before)
      decreases |universe - visited.ids|, 1
    {
      ghost var seen, kept, sofar := visited.ids, records, deletions;
      RemoveVisiting(row, true, visited, graph, universe);
      forall id | id in visited.ids - seen
        ensures Reachable(graph, record, id)
      {
        ReachThroughFirst(graph, record, row, id);
      }
      SweepAppended(had, kept, records, before, seen, visited.ids, gone, sofar, deletions);
      CloseOn(graph, record, before, seen, visited.ids);
    }

    /** The public call: with cascade exactly the reachable records go, each deleted once. */
    method RemoveRecordWithFile(record: Id, cascade: bool)
      modifies this
      ensures var graph := old(records);
              forall id :: id in records <==>
                id in graph && !(id == record || (cascade && Reachable(graph, record, id)))
      ensures forall id :: id in records ==> records[id] == old(records)[id]
      ensures old(deletions) <= deletions
      ensures var more := deletions[|old(deletions)|..];
              && NoRepeats(more)
              && forall id :: id in more <==> id == record || (cascade && Reachable(old(records), record, id))
    {
      var visited := new Visited();
      ghost var graph := records;
      RemoveVisiting(record, cascade, visited, graph, graph.Keys + {record});
      if cascade {
        forall id
          ensures Reachable(graph, record, id) <==> id in visited.ids
        {
          ReachSelf(graph, record);
          if Reachable(graph, record, id) {
            var path :| ChainTo(graph, path, record, id);
            ClosedHoldsChain(graph, visited.ids, path);
          }
        }
      }
    }
  }

  /** The store holds the graph's records, at least those not visited yet. */
  ghost predicate IsRest(graph: Records, records: Records, visited: set<Id>) {
    && (forall id :: id in graph && id !in visited ==> id in records)
    && (forall id :: id in records ==> id in graph && records[id] == graph[id])
  }

  /** Between two moments exactly the newly visited records were deleted, each once. */
  ghost predicate Swept(from: Records, to: Records, before: set<Id>, after: set<Id>, deleted: seq<Id>) {
    && before <= after
    && to == from - (after - before)
    && NoRepeats(deleted)
    && forall id :: id in deleted <==> id in after - before
  }

  /** Dependants of newly visited records are visited too. */
  ghost predicate Closed(graph: Records, before: set<Id>, after: set<Id>) {
    forall id, child :: id in after - before && DependsOn(graph, child, id) ==> child in after
  }

  ghost predicate AllReachable(graph: Records, from: Id, ids: set<Id>) {
    forall id :: id in ids ==> Reachable(graph, from, id)
  }

  lemma SweepOn(r0: Records, r1: Records, r2: Records, v0: set<Id>, v1: set<Id>, v2: set<Id>, d1: seq<Id>, d2: seq<Id>)
    requires Swept(r0, r1, v0, v1, d1) && Swept(r1, r2, v1, v2, d2)
    ensures Swept(r0, r2, v0, v2, d1 + d2)
  {
    JoinNoRepeats(d1, d2);
    assert v2 - v0 == (v1 - v0) + (v2 - v1);
  }

  lemma NothingSwept(graph: Records, records: Records, record: Id, ids: set<Id>, deletions: seq<Id>)
    ensures Swept(records, records, ids, ids, deletions[|deletions|..])
    ensures Closed(graph, ids, ids) && AllReachable(graph, record, ids - ids)
  {
    assert records - (ids - ids) == records;
  }

  lemma RowDepends(graph: Records, had: Records, before: set<Id>, record: Id, rows: seq<Id>, i: nat)
    requires i < |rows| && (set id | id in rows) == Dependants(had, record) && IsRest(graph, had, before)
    ensures DependsOn(graph, rows[i], record)
  {
    assert rows[i] in Dependants(had, record);
  }

  lemma SweepAppended(r0: Records, r1: Records, r2: Records, v0: set<Id>, v1: set<Id>, v2: set<Id>,
                      gone: seq<Id>, sofar: seq<Id>, deletions: seq<Id>)
    requires gone <= sofar <= deletions
    requires Swept(r0, r1, v0, v1, sofar[|gone|..]) && Swept(r1, r2, v1, v2, deletions[|sofar|..])
    ensures Swept(r0, r2, v0, v2, deletions[|gone|..])
  {
    SplitTail(deletions, |gone|, |sofar|);
    assert deletions[|gone|..|sofar|] == sofar[|gone|..];
    SweepOn(r0, r1, r2, v0, v1, v2, sofar[|gone|..], deletions[|sofar|..]);
  }

  lemma CloseOn(graph: Records, record: Id, before: set<Id>, seen: set<Id>, after: set<Id>)
    requires before <= seen <= after && Closed(graph, before, seen) && Closed(graph, seen, after)
    requires AllReachable(graph, record, seen - before) && AllReachable(graph, record, after - seen)
    ensures Closed(graph, before, after) && AllReachable(graph, record, after - before)
  {
  }

  lemma DependantsVisited(graph: Records, had: Records, before: set<Id>, after: set<Id>, record: Id, rows: seq<Id>)
    requires IsRest(graph, had, before) && before <= after
    requires (set id | id in rows) == Dependants(had, record)
    requires forall k :: 0 <= k < |rows| ==> rows[k] in after
    ensures forall child :: DependsOn(graph, child, record) ==> child in after
  {
    forall child | DependsOn(graph, child, record)
      ensures child in after
    {
      if child !in before {
        assert child in Dependants(had, record);
        assert child in rows;
      }
    }
  }

  lemma CloseRecord(graph: Records, record: Id, before: set<Id>, after: set<Id>)
    requires Closed(graph, before + {record}, after) && AllReachable(graph, record, after - (before + {record}))
    requires forall child :: DependsOn(graph, child, record) ==> child in after
    ensures Closed(graph, before, after) && AllReachable(graph, record, after - before)
  {
    ReachSelf(graph, record);
  }

  lemma SweepRecord(from: Records, to: Records, before: set<Id>, after: set<Id>, swept: seq<Id>, record: Id)
    requires record !in before
    requires exists mid :: Swept(from, mid, before + {record}, after, swept) && to == mid - {record}
    ensures Swept(from, to, before, after, swept + [record])
  {
    JoinNoRepeats(swept, [record]);
    assert after - before == (after - (before + {record})) + {record};
  }

  lemma FewerLeft(universe: set<Id>, before: set<Id>, id: Id)
    requires id in universe && id !in before
    ensures |universe - (before + {id})| < |universe - before|
  {
    assert universe - (before + {id}) == (universe - before) - {id};
  }

  lemma FewerStill(universe: set<Id>, some: set<Id>, more: set<Id>)
    requires some <= more
    ensures |universe - more| <= |universe - some|
  {
    SubsetCount(universe - more, universe - some);
  }

  lemma SplitTail(s: seq<Id>, i: nat, j: nat)
    requires i <= j <= |s|
    ensures s[i..] == s[i..j] + s[j..]
  {
  }

  lemma JoinNoRepeats(a: seq<Id>, b: seq<Id>)
    requires NoRepeats(a) && NoRepeats(b) && forall id :: id in a ==> id !in b
    ensures NoRepeats(a + b)
  {
    forall i, j | 0 <= i < j < |a + b|
      ensures (a + b)[i] != (a + b)[j]
    {
      if i < |a| <= j { assert a[i] in a && b[j - |a|] in b; }
    }
  }

  /** After a cascade no surviving record depends on a removed one. */
  lemma NoDanglingDependant(graph: Records, after: Records, record: Id, survivor: Id)
    requires forall id :: id in after <==> id in graph && !(id == record || Reachable(graph, record, id))
    requires forall id :: id in after ==> after[id] == graph[id]
    requires survivor in after && after[survivor].dependencyOf.Some?
    ensures var parent := after[survivor].dependencyOf.value; parent in after || parent !in graph
    ensures after[survivor].dependencyOf != Some(record)
  {
    var parent := after[survivor].dependencyOf.value;
    if Reachable(graph, record, parent) {
      ReachThroughLast(graph, record, parent, survivor);
    }
    ReachSelf(graph, record);
  }
}
