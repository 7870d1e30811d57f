/** The order in which a proxy tries the members of a network. */
module TryOrder {
  import opened JsText
  import opened Collections

  datatype Backend = Backend(serverId: Id, tryOrder: Option<nat>)

  predicate DistinctServers(backends: seq<Backend>) {
    forall i, j :: 0 <= i < j < |backends| ==> backends[i].serverId != backends[j].serverId
  }

  predicate HasOrder(backends: seq<Backend>, m: nat) {
    exists i :: 0 <= i < |backends| && backends[i].tryOrder == Some(m)
  }

  /** Orders of the listed members are all different. */
  predicate DistinctOrders(backends: seq<Backend>) {
    forall i, j :: 0 <= i < j < |backends| && backends[i].tryOrder.Some? ==>
      backends[i].tryOrder != backends[j].tryOrder
  }

  /** The orders in use are exactly 0 .. k-1, each once. */
  predicate NumberedTo(backends: seq<Backend>, k: nat) {
    && (forall i :: 0 <= i < |backends| && backends[i].tryOrder.Some? ==> backends[i].tryOrder.value < k)
    && DistinctOrders(backends)
    && (forall m :: 0 <= m < k ==> HasOrder(backends, m))
  }

  /** What every stored network is like: contiguous orders, and a default server while there are members. */
  ghost predicate WellOrdered(backends: seq<Backend>) {
    DistinctServers(backends) && exists k: nat :: NumberedTo(backends, k) && (backends != [] ==> k >= 1)
  }

  predicate NoneListed(backends: seq<Backend>) {
    forall i :: 0 <= i < |backends| ==> backends[i].tryOrder.None?
  }

  predicate SameServers(a: seq<Backend>, b: seq<Backend>) {
    |a| == |b| && forall i :: 0 <= i < |a| ==> a[i].serverId == b[i].serverId
  }

  /**
   * Renumbered without gaps, in the order they had, equal orders told apart; a network with no order gets its
   * first member as default.
   */
  ghost predicate IsCompacted(before: seq<Backend>, after: seq<Backend>) {
    && SameServers(before, after)
    && (exists k: nat :: NumberedTo(after, k) && (before != [] ==> k >= 1))
    && (NoneListed(before) && before != [] ==> after == before[0 := before[0].(tryOrder := Some(0))])
    && (!NoneListed(before) ==>
          && (forall i :: 0 <= i < |before| ==> (before[i].tryOrder.Some? <==> after[i].tryOrder.Some?))
          && (forall i, j :: 0 <= i < |before| && 0 <= j < |before|
                             && before[i].tryOrder.Some? && before[j].tryOrder.Some? ==>
                (TriedBefore(before, i, j) <==> after[i].tryOrder.value < after[j].tryOrder.value)))
  }

  /** Of two listed members the one with the smaller order is tried first; with equal orders, the earlier one. */
  predicate TriedBefore(backends: seq<Backend>, i: int, j: int)
    requires 0 <= i < |backends| && backends[i].tryOrder.Some?
    requires 0 <= j < |backends| && backends[j].tryOrder.Some?
  {
    var a, b := backends[i].tryOrder.value, backends[j].tryOrder.value;
    a < b || (a == b && i < j)
  }

  function Removed(backends: seq<Backend>, server: Id): seq<Backend> {
    if backends == [] then []
    else (if backends[0].serverId == server then [] else [backends[0]]) + Removed(backends[1..], server)
  }

  /** Filtering keeps exactly the other members. */
  lemma {:induction false} RemovedKeeps(backends: seq<Backend>, server: Id)
    ensures forall b :: b in Removed(backends, server) <==> b in backends && b.serverId != server
  {
    if backends != [] {
      RemovedKeeps(backends[1..], server);
      assert backends == [backends[0]] + backends[1..];
    }
  }

  lemma {:induction false} RemovedKeepsDistinctServers(backends: seq<Backend>, server: Id)
    requires DistinctServers(backends)
    ensures DistinctServers(Removed(backends, server))
  {
    if backends != [] {
      var rest := backends[1..];
      assert forall i :: 0 <= i < |rest| ==> rest[i] == backends[i + 1];
      RemovedKeepsDistinctServers(rest, server);
      RemovedKeeps(rest, server);
      var left := Removed(rest, server);
      forall i | 0 <= i < |left|
        ensures left[i].serverId != backends[0].serverId
      {
        assert left[i] in left && left[i] in rest;
      }
    }
  }

  lemma {:induction false} RemovedKeepsDistinctOrders(backends: seq<Backend>, server: Id)
    requires DistinctOrders(backends)
    ensures DistinctOrders(Removed(backends, server))
  {
    if backends != [] {
      var rest := backends[1..];
      assert forall i :: 0 <= i < |rest| ==> rest[i] == backends[i + 1];
      RemovedKeepsDistinctOrders(rest, server);
      RemovedKeeps(rest, server);
      var left := Removed(rest, server);
      forall i | 0 <= i < |left|
        ensures backends[0].tryOrder.Some? ==> backends[0].tryOrder != left[i].tryOrder
      {
        assert left[i] in left && left[i] in rest;
      }
    }
  }

  predicate IsMember(backends: seq<Backend>, server: Id) {
    exists i :: 0 <= i < |backends| && backends[i].serverId == server
  }

  /** A try order lists members, at least one, none twice. */
  predicate ValidOrder(backends: seq<Backend>, order: seq<Id>) {
    && order != []
    && (forall i, j :: 0 <= i < j < |order| ==> order[i] != order[j])
    && (forall i :: 0 <= i < |order| ==> IsMember(backends, order[i]))
  }

  /** `order.indexOf(server)`, |order| instead of -1. */
  function IndexOf(order: seq<Id>, server: Id): (i: nat)
    ensures i <= |order| && (i < |order| ==> order[i] == server)
    ensures forall j :: 0 <= j < i ==> order[j] != server
  {
    if order == [] || order[0] == server then 0
    else
      assert forall j :: 1 <= j < |order| ==> order[j] == order[1..][j - 1];
      1 + IndexOf(order[1..], server)
  }

  function PlaceIn(order: seq<Id>, backend: Backend): Backend {
    var index := IndexOf(order, backend.serverId);
    backend.(tryOrder := if index == |order| then None else Some(index))
  }

  ghost predicate IsReordered(before: seq<Backend>, order: seq<Id>, after: seq<Backend>) {
    |after| == |before| && forall i :: 0 <= i < |before| ==> after[i] == PlaceIn(order, before[i])
  }

  // ----- the object

  class Network {
    var backends: seq<Backend>

    constructor ()
      ensures backends == []
    {
      backends := [];
    }

    /** A new member becomes the default server when nothing is listed. */
    method AddMember(server: Id) returns (added: bool)
      modifies this
      ensures added <==> !IsMember(old(backends), server)
      ensures backends == if added
              then old(backends) + [Backend(server, if NoneListed(old(backends)) then Some(0) else None)]
              else old(backends)
    {
      if IsMember(backends, server) { return false; }
      var first := NoneListed(backends);
      backends := backends + [Backend(server, if first then Some(0) else None)];
      return true;
    }

    method RemoveMember(server: Id)
      modifies this
      ensures IsCompacted(Removed(old(backends), server), backends)
    {
      backends := Removed(backends, server);
      CompactOrder();
    }

    /** Puts position i behind every listed one that is tried no later. */
    method InsertByOrder(listed: seq<nat>, i: nat) returns (r: seq<nat>)
      requires i < |backends| && backends[i].tryOrder.Some? && IsSorted(backends, listed)
      requires forall k :: 0 <= k < |listed| ==> listed[k] < i
      ensures IsSorted(backends, r) && forall x :: x in r <==> x in listed || x == i
    {
      var at := 0;
      while at < |listed| && backends[listed[at]].tryOrder.value <= backends[i].tryOrder.value
        invariant 0 <= at <= |listed|
        invariant forall k :: 0 <= k < at ==> backends[listed[k]].tryOrder.value <= backends[i].tryOrder.value
      {
        at := at + 1;
      }
      r := listed[..at] + [i] + listed[at..];
      InsertedIsSorted(backends, listed, i, at);
    }

    /** Positions of the listed members, stably sorted by order. */
    method ListedByOrder() returns (listed: seq<nat>)
      ensures IsSorted(backends, listed)
      ensures forall x: nat :: x in listed <==> x < |backends| && backends[x].tryOrder.Some?
    {
      listed := [];
      var i := 0;
      while i < |backends|
        invariant 0 <= i <= |backends|
        invariant IsSorted(backends, listed)
        invariant forall x: nat :: x in listed <==> x < i && backends[x].tryOrder.Some?
      {
        if backends[i].tryOrder.Some? {
          listed := InsertByOrder(listed, i);
        }
        i := i + 1;
      }
    }

    /** Gives the listed members the orders 0, 1, 2, ... */
    method Renumber(listed: seq<nat>)
      requires IsSorted(backends, listed)
      modifies this
      ensures SameServers(old(backends), backends)
      ensures forall x: nat :: x < |backends| && x !in listed ==> backends[x] == old(backends)[x]
      ensures forall j :: 0 <= j < |listed| ==> backends[listed[j]].tryOrder == Some(j)
    {
      SortedIsInjective(backends, listed);
      ghost var was := backends;
      var k := 0;
      while k < |listed|
        invariant 0 <= k <= |listed| && SameServers(was, backends)
        invariant forall x: nat :: x < |backends| && x !in listed ==> backends[x] == was[x]
        invariant forall j :: 0 <= j < k ==> backends[listed[j]].tryOrder == Some(j)
      {
        var at := listed[k];
        backends := backends[at := backends[at].(tryOrder := Some(k))];
        assert forall j :: 0 <= j < k ==> listed[j] != at;
        k := k + 1;
      }
    }

    /** Sorts the listed members by order, numbers them, and makes the first member default when none is listed. */
    method CompactOrder()
      modifies this
      ensures IsCompacted(old(backends), backends)
    {
      ghost var was := backends;
      var listed := ListedByOrder();
      Renumber(listed);
      if |backends| > 0 && NoneListed(backends) {
        NothingRenumbered(was, listed, backends);
        backends := backends[0 := backends[0].(tryOrder := Some(0))];
        DefaultIsCompacted(was, backends);
      } else {
        SomethingListed(was, listed, backends);
        RenumberedIsCompacted(was, listed, backends);
      }
    }

    method SetOrder(order: seq<Id>) returns (accepted: bool)
      modifies this
      ensures accepted <==> ValidOrder(old(backends), order)
      ensures if accepted then IsReordered(old(backends), order, backends) else backends == old(backends)
    {
      if !ValidOrder(backends, order) { return false; }
      ghost var was := backends;
      var i := 0;
      while i < |backends|
        invariant 0 <= i <= |backends| == |was|
        invariant forall j :: 0 <= j < i ==> backends[j] == PlaceIn(order, was[j])
        invariant forall j :: i <= j < |was| ==> backends[j] == was[j]
      {
        var index := IndexOf(order, backends[i].serverId);
        var b := backends[i];
        backends := backends[i := b.(tryOrder := if index == |order| then None else Some(index))];
        i := i + 1;
      }
      return true;
    }

    /** One operation on the object is one step of the runs below. */
    method Handle(op: Op)
      modifies this
      ensures Step(old(backends), op, backends)
    {
      match op
      case Add(server) => var _ := AddMember(server);
      case Remove(server) => RemoveMember(server);
      case SetOrder(order) => var _ := this.SetOrder(order);
    }

    /** Any sequence of operations on the object is such a run, through the states given back. */
    method HandleAll(ops: seq<Op>) returns (ghost states: seq<seq<Backend>>)
      modifies this
      ensures IsRun(states, ops) && states[0] == old(backends) && states[|ops|] == backends
    {
      hide Step;
      states := [backends];
      var i := 0;
      while i < |ops|
        invariant 0 <= i <= |ops| && |states| == i + 1
        invariant states[0] == old(backends) && states[i] == backends
        invariant forall j :: 0 <= j < i ==> Step(states[j], ops[j], states[j + 1])
      {
        Handle(ops[i]);
        states := states + [backends];
        i := i + 1;
      }
    }
  }

  /** So whatever is asked of a new network, its orders are contiguous and it has a default while it has members. */
  method Serve(ops: seq<Op>) returns (network: Network)
    ensures fresh(network) && WellOrdered(network.backends)
  {
    network := new Network();
    ghost var states := network.HandleAll(ops);
    EveryRunIsOrdered(states, ops);
  }

  /** Positions of listed members, by growing order, positions deciding between equal orders. */
  predicate IsSorted(backends: seq<Backend>, listed: seq<nat>) {
    && (forall k :: 0 <= k < |listed| ==> listed[k] < |backends| && backends[listed[k]].tryOrder.Some?)
    && (forall j, k :: 0 <= j < k < |listed| ==> TriedBefore(backends, listed[j], listed[k]))
  }

  lemma InsertedIsSorted(backends: seq<Backend>, listed: seq<nat>, i: nat, at: nat)
    requires i < |backends| && backends[i].tryOrder.Some? && IsSorted(backends, listed) && at <= |listed|
    requires forall k :: 0 <= k < |listed| ==> listed[k] < i
    requires forall k :: 0 <= k < at ==> backends[listed[k]].tryOrder.value <= backends[i].tryOrder.value
    requires at < |listed| ==> backends[listed[at]].tryOrder.value > backends[i].tryOrder.value
    ensures IsSorted(backends, listed[..at] + [i] + listed[at..])
    ensures forall x :: x in listed[..at] + [i] + listed[at..] <==> x in listed || x == i
  {
    InsertedMembers(listed, i, at);
    var r := listed[..at] + [i] + listed[at..];
    forall j, k | 0 <= j < k < |r|
      ensures r[j] < |backends| && backends[r[j]].tryOrder.Some? && r[k] < |backends| && backends[r[k]].tryOrder.Some?
      ensures TriedBefore(backends, r[j], r[k])
    {
      InsertedPair(backends, listed, i, at, j, k);
    }
    assert forall k :: 0 <= k < |r| ==> r[k] in r;
  }

  lemma InsertedMembers<T>(listed: seq<T>, x: T, at: nat)
    requires at <= |listed|
    ensures forall y :: y in listed[..at] + [x] + listed[at..] <==> y in listed || y == x
  {
    assert listed == listed[..at] + listed[at..];
  }

  /** Place of an element after the insertion. */
  lemma InsertedAt<T>(listed: seq<T>, x: T, at: nat, k: nat)
    requires at <= |listed| && k <= |listed|
    ensures (listed[..at] + [x] + listed[at..])[k] == if k < at then listed[k] else if k == at then x else listed[k - 1]
  {
  }

  lemma InsertedPair(backends: seq<Backend>, listed: seq<nat>, i: nat, at: nat, j: nat, k: nat)
    requires i < |backends| && backends[i].tryOrder.Some? && IsSorted(backends, listed) && at <= |listed|
    requires forall m :: 0 <= m < |listed| ==> listed[m] < i
    requires forall m :: 0 <= m < at ==> backends[listed[m]].tryOrder.value <= backends[i].tryOrder.value
    requires at < |listed| ==> backends[listed[at]].tryOrder.value > backends[i].tryOrder.value
    requires j < k <= |listed|
    ensures var r := listed[..at] + [i] + listed[at..];
            && r[j] < |backends| && backends[r[j]].tryOrder.Some? && r[k] < |backends| && backends[r[k]].tryOrder.Some?
            && TriedBefore(backends, r[j], r[k])
  {
    InsertedAt(listed, i, at, j);
    InsertedAt(listed, i, at, k);
    if j == at && at < k - 1 {
      assert TriedBefore(backends, listed[at], listed[k - 1]);
    }
    if j != at && k != at {
      assert TriedBefore(backends, listed[if j < at then j else j - 1], listed[if k < at then k else k - 1]);
    }
  }

  lemma SortedIsInjective(backends: seq<Backend>, listed: seq<nat>)
    requires IsSorted(backends, listed)
    ensures forall j, k :: 0 <= j < k < |listed| ==> listed[j] != listed[k]
  {
    forall j, k | 0 <= j < k < |listed|
      ensures listed[j] != listed[k]
    {
      assert TriedBefore(backends, listed[j], listed[k]);
    }
  }

  lemma NothingRenumbered(was: seq<Backend>, listed: seq<nat>, after: seq<Backend>)
    requires SameServers(was, after) && IsSorted(was, listed)
    requires forall x: nat :: x in listed <==> x < |was| && was[x].tryOrder.Some?
    requires forall x: nat :: x < |after| && x !in listed ==> after[x] == was[x]
    requires forall j :: 0 <= j < |listed| ==> after[listed[j]].tryOrder == Some(j)
    ensures NoneListed(after) ==> NoneListed(was) && after == was
  {
    if listed != [] {
      assert after[listed[0]].tryOrder == Some(0);
    } else {
      assert forall x: nat :: x < |was| ==> x !in listed;
    }
  }

  lemma DefaultIsCompacted(was: seq<Backend>, after: seq<Backend>)
    requires was != [] && NoneListed(was)
    requires after == was[0 := was[0].(tryOrder := Some(0))]
    ensures IsCompacted(was, after)
  {
    assert after[0].tryOrder == Some(0);
    assert NumberedTo(after, 1);
  }

  lemma SomethingListed(was: seq<Backend>, listed: seq<nat>, after: seq<Backend>)
    requires SameServers(was, after) && (after == [] || !NoneListed(after))
    requires forall x: nat :: x in listed <==> x < |was| && was[x].tryOrder.Some?
    requires forall x: nat :: x < |after| && x !in listed ==> after[x] == was[x]
    ensures was != [] ==> listed != []
  {
    if was != [] {
      var x: nat :| x < |after| && after[x].tryOrder.Some?;
      assert x in listed;
    }
  }

  lemma RenumberedIsCompacted(was: seq<Backend>, listed: seq<nat>, after: seq<Backend>)
    requires IsSorted(was, listed) && SameServers(was, after)
    requires was != [] ==> listed != []
    requires forall x: nat :: x in listed <==> x < |was| && was[x].tryOrder.Some?
    requires forall x: nat :: x < |after| && x !in listed ==> after[x] == was[x]
    requires forall j :: 0 <= j < |listed| ==> after[listed[j]].tryOrder == Some(j)
    ensures IsCompacted(was, after)
  {
    forall x | 0 <= x < |was| && after[x].tryOrder.Some?
      ensures was[x].tryOrder.Some? && after[x].tryOrder.value < |listed| && listed[after[x].tryOrder.value] == x
    {
      var nx: nat := x;
      assert nx in listed;
      var j :| 0 <= j < |listed| && listed[j] == nx;
    }
    forall m | 0 <= m < |listed|
      ensures HasOrder(after, m)
    {
      assert after[listed[m]].tryOrder == Some(m);
    }
    assert NumberedTo(after, |listed|);
    forall x | 0 <= x < |was|
      ensures was[x].tryOrder.Some? <==> after[x].tryOrder.Some?
    {
      var nx: nat := x;
      if was[x].tryOrder.Some? {
        assert nx in listed;
        var j :| 0 <= j < |listed| && listed[j] == nx;
      }
    }
    if was != [] {
      assert was[listed[0]].tryOrder.Some?;
    }
  }

  // ----- runs

  datatype Op = Add(server: Id) | Remove(server: Id) | SetOrder(order: seq<Id>)

  /** What the methods promise about one change of the stored members. */
  ghost predicate Step(before: seq<Backend>, op: Op, after: seq<Backend>) {
    match op
    case Add(server) =>
      after == if IsMember(before, server) then before
               else before + [Backend(server, if NoneListed(before) then Some(0) else None)]
    case Remove(server) => IsCompacted(Removed(before, server), after)
    case SetOrder(order) => if ValidOrder(before, order) then IsReordered(before, order, after) else after == before
  }

  /** The states a run goes through. */
  ghost predicate IsRun(states: seq<seq<Backend>>, ops: seq<Op>) {
    |states| == |ops| + 1 && forall i :: 0 <= i < |ops| ==> Step(states[i], ops[i], states[i + 1])
  }

  lemma AddKeepsOrder(before: seq<Backend>, server: Id)
    requires WellOrdered(before) && !IsMember(before, server)
    ensures WellOrdered(before + [Backend(server, if NoneListed(before) then Some(0) else None)])
  {
    var after := before + [Backend(server, if NoneListed(before) then Some(0) else None)];
    var k: nat :| NumberedTo(before, k) && (before != [] ==> k >= 1);
    if NoneListed(before) {
      assert after[|before|].tryOrder == Some(0);
      assert NumberedTo(after, 1);
    } else {
      forall m | 0 <= m < k
        ensures HasOrder(after, m)
      {
        assert HasOrder(before, m);
        var i :| 0 <= i < |before| && before[i].tryOrder == Some(m);
        assert after[i].tryOrder == Some(m);
      }
      assert NumberedTo(after, k);
    }
  }

  lemma SetOrderKeepsOrder(before: seq<Backend>, order: seq<Id>, after: seq<Backend>)
    requires WellOrdered(before) && ValidOrder(before, order) && IsReordered(before, order, after)
    ensures WellOrdered(after) && NumberedTo(after, |order|)
  {
    forall m | 0 <= m < |order|
      ensures HasOrder(after, m)
    {
      assert IsMember(before, order[m]);
      var i :| 0 <= i < |before| && before[i].serverId == order[m];
      assert after[i] == PlaceIn(order, before[i]);
    }
    assert NumberedTo(after, |order|);
  }

  /**
   * A list of members, at least one and none twice, is accepted: the k-th of them is tried k-th, so the first
   * is the default server, and members it leaves out are not tried. Any other list changes nothing.
   */
  lemma SetOrderPlaces(before: seq<Backend>, order: seq<Id>, after: seq<Backend>)
    requires Step(before, SetOrder(order), after)
    ensures var accepted := order != [] && NoRepeats(order)
              && forall k :: 0 <= k < |order| ==> exists i :: 0 <= i < |before| && before[i].serverId == order[k];
            if !accepted then after == before
            else
              && |after| == |before| && (forall i :: 0 <= i < |before| ==> after[i].serverId == before[i].serverId)
              && (forall i, k :: 0 <= i < |after| && 0 <= k < |order| && after[i].serverId == order[k] ==>
                    after[i].tryOrder == Some(k))
              && (forall i :: 0 <= i < |after| && after[i].serverId !in order ==> after[i].tryOrder == None)
  {
    assert forall k :: 0 <= k < |order| ==>
             (IsMember(before, order[k]) <==> exists i :: 0 <= i < |before| && before[i].serverId == order[k]);
    if ValidOrder(before, order) {
      forall i, k | 0 <= i < |after| && 0 <= k < |order| && after[i].serverId == order[k]
        ensures after[i].tryOrder == Some(k)
      {
        var index := IndexOf(order, before[i].serverId);
        assert after[i] == PlaceIn(order, before[i]);
        assert index == k;
      }
      forall i | 0 <= i < |after| && after[i].serverId !in order
        ensures after[i].tryOrder == None
      {
        assert after[i] == PlaceIn(order, before[i]);
      }
    }
  }

  /** Removal filters: the others stay as they are, in their places. */
  lemma {:induction false} RemovedConcat(a: seq<Backend>, b: seq<Backend>, server: Id)
    ensures Removed(a + b, server) == Removed(a, server) + Removed(b, server)
  {
    if a == [] {
      assert a + b == b;
    } else {
      RemovedConcat(a[1..], b, server);
      Uncons(a, b);
      Assoc(if a[0].serverId == server then [] else [a[0]], Removed(a[1..], server), Removed(b, server));
    }
  }

  lemma RemovedOne(backend: Backend, server: Id)
    ensures Removed([backend], server) == if backend.serverId == server then [] else [backend]
  {
    assert [backend][1..] == [];
  }

  lemma RemoveKeepsOrder(before: seq<Backend>, server: Id, after: seq<Backend>)
    requires WellOrdered(before) && IsCompacted(Removed(before, server), after)
    ensures WellOrdered(after) && !IsMember(after, server)
  {
    RemovedKeeps(before, server);
    RemovedKeepsDistinctServers(before, server);
    var left := Removed(before, server);
    forall i | 0 <= i < |after|
      ensures after[i].serverId != server
    {
      assert left[i] in left;
    }
    assert DistinctServers(after);
  }

  lemma ListedApart(backends: seq<Backend>, i: nat, j: nat)
    requires DistinctOrders(backends) && i < |backends| && j < |backends|
    requires backends[i].tryOrder.Some? && backends[i].tryOrder == backends[j].tryOrder
    ensures i == j
  {
  }

  /** Two listed members that stay are both listed afterwards, tried in the same order. */
  lemma RemovalKeepsRelativeOrder(before: seq<Backend>, server: Id, after: seq<Backend>, x: Backend, y: Backend)
    returns (nx: Backend, ny: Backend)
    requires WellOrdered(before) && IsCompacted(Removed(before, server), after)
    requires x in before && x.serverId != server && x.tryOrder.Some?
    requires y in before && y.serverId != server && y.tryOrder.Some?
    ensures nx in after && nx.serverId == x.serverId && nx.tryOrder.Some?
    ensures ny in after && ny.serverId == y.serverId && ny.tryOrder.Some?
    ensures x.tryOrder.value < y.tryOrder.value <==> nx.tryOrder.value < ny.tryOrder.value
  {
    RemovedKeeps(before, server);
    assert DistinctOrders(before);
    RemovedKeepsDistinctOrders(before, server);
    nx, ny := CompactedPair(Removed(before, server), after, x, y);
  }

  lemma CompactedPair(left: seq<Backend>, after: seq<Backend>, x: Backend, y: Backend)
    returns (nx: Backend, ny: Backend)
    requires DistinctOrders(left) && IsCompacted(left, after)
    requires x in left && x.tryOrder.Some? && y in left && y.tryOrder.Some?
    ensures nx in after && nx.serverId == x.serverId && nx.tryOrder.Some?
    ensures ny in after && ny.serverId == y.serverId && ny.tryOrder.Some?
    ensures x.tryOrder.value < y.tryOrder.value <==> nx.tryOrder.value < ny.tryOrder.value
  {
    var i :| 0 <= i < |left| && left[i] == x;
    var j :| 0 <= j < |left| && left[j] == y;
    hide NumberedTo, DistinctOrders;
    nx, ny := after[i], after[j];
    if x.tryOrder == y.tryOrder { ListedApart(left, i, j); }
    assert TriedBefore(left, i, j) <==> x.tryOrder.value < y.tryOrder.value;
  }

  /** Add, remove and setOrder in any run keep the orders equal to 0 .. k-1, with a default while there are members. */
  lemma {:induction false} RunKeepsOrder(states: seq<seq<Backend>>, ops: seq<Op>)
    requires IsRun(states, ops) && WellOrdered(states[0])
    ensures WellOrdered(states[|ops|])
  {
    if ops != [] {
      var n := |ops| - 1;
      assert forall i :: 0 <= i < n ==> Step(states[..n + 1][i], ops[..n][i], states[..n + 1][i + 1]);
      RunKeepsOrder(states[..n + 1], ops[..n]);
      var before, after := states[n], states[n + 1];
      match ops[n]
      case Add(server) => if !IsMember(before, server) { AddKeepsOrder(before, server); }
      case Remove(server) => RemoveKeepsOrder(before, server, after);
      case SetOrder(order) => if ValidOrder(before, order) { SetOrderKeepsOrder(before, order, after); }
    }
  }

  /** So from an empty network on every run is well ordered. */
  lemma EveryRunIsOrdered(states: seq<seq<Backend>>, ops: seq<Op>)
    requires IsRun(states, ops) && states[0] == []
    ensures WellOrdered(states[|ops|])
  {
    assert NumberedTo([], 0);
    RunKeepsOrder(states, ops);
  }
}
