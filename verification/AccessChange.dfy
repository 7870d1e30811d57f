/** Whether an update changed what an account may do, the test that decides about its sessions. */
module AccessChange {
  import opened JsText
  import opened Collections
  import opened AccessLevels
  import opened PanelSteps
  import opened Confinement

  /** The access of an account as the lists the panel keeps it in. */
  datatype Lists = Lists(
    roles: seq<Id>, grants: AccessMap, ext: seq<string>, enabled: bool, allowed: seq<Id>, isAdmin: bool)

  predicate SameSet<T(==)>(a: seq<T>, b: seq<T>) {
    |a| == |b| && forall x :: x in a ==> x in b
  }

  predicate SameGrants(a: AccessMap, b: AccessMap) {
    forall area :: area in a.Keys + b.Keys ==> LevelIn(a, area) == LevelIn(b, area)
  }

  predicate SameRestrict(a: Lists, b: Lists) {
    a.enabled == b.enabled && SameSet(a.allowed, b.allowed)
  }

  predicate AccessChanged(before: Lists, after: Lists) {
    || before.isAdmin != after.isAdmin
    || !SameSet(before.roles, after.roles)
    || !SameGrants(before.grants, after.grants)
    || !SameSet(before.ext, after.ext)
    || !SameRestrict(before, after)
  }

  function AccountOf(lists: Lists): Account {
    Account(lists.roles, lists.grants, Elements(lists.ext),
            ServersRestrict(lists.enabled, Elements(lists.allowed)), lists.isAdmin)
  }

  predicate Unrepeated(lists: Lists) {
    NoRepeats(lists.roles) && NoRepeats(lists.ext) && NoRepeats(lists.allowed)
  }

  /** The list comparison means set equality as soon as the list it starts from has no repeats. */
  lemma SameSetMeansElements<T>(a: seq<T>, b: seq<T>)
    requires NoRepeats(a)
    ensures SameSet(a, b) <==> Elements(a) == Elements(b) && NoRepeats(b)
  {
    ElementsCount(a);
    ElementsCount(b);
    if SameSet(a, b) {
      assert Elements(a) <= Elements(b);
      SubsetCount(Elements(a), Elements(b));
      FullSubset(Elements(a), Elements(b));
    }
    assert Elements(a) == Elements(b) ==> forall x :: x in a ==> x in Elements(b);
  }

  /** A repeat in the first list can hide a change. */
  lemma RepeatHidesChange<T>(x: T, y: T)
    requires x != y
    ensures SameSet([x, x], [x, y]) && Elements([x, x]) != Elements([x, y])
  {
    assert y in Elements([x, y]) && y !in Elements([x, x]);
  }

  lemma SameGrantsMeansEqual(a: AccessMap, b: AccessMap)
    ensures SameGrants(a, b) <==> a == b
  {
    if SameGrants(a, b) {
      forall area
        ensures area in a <==> area in b
        ensures area in a ==> a[area] == b[area]
      {
        assert area in a || area in b ==> area in a.Keys + b.Keys;
        assert LevelIn(a, area) == LevelIn(b, area) || (area !in a && area !in b);
      }
    }
  }

  /**
   * From a stored account, whose lists have no repeats, the test is exact for every request: no change is
   * reported if and only if nothing it looks at differs and the lists of the request repeat nothing either.
   */
  lemma AccessChangedExactly(before: Lists, after: Lists)
    requires Unrepeated(before)
    ensures !AccessChanged(before, after) <==>
            && before.isAdmin == after.isAdmin && before.enabled == after.enabled && before.grants == after.grants
            && Elements(before.roles) == Elements(after.roles)
            && Elements(before.ext) == Elements(after.ext)
            && Elements(before.allowed) == Elements(after.allowed)
            && NoRepeats(after.roles) && NoRepeats(after.ext) && NoRepeats(after.allowed)
  {
    SameSetMeansElements(before.roles, after.roles);
    SameSetMeansElements(before.ext, after.ext);
    SameSetMeansElements(before.allowed, after.allowed);
    SameGrantsMeansEqual(before.grants, after.grants);
  }

  /**
   * No change reported, no power gained or lost: the sessions that stay see the same access. The stored
   * account has no repeats; the lists of the request may have some.
   */
  lemma UnchangedKeepsPowers(roles: map<Id, Role>, before: Lists, after: Lists, power: Power)
    requires Unrepeated(before) && !AccessChanged(before, after)
    ensures Has(SubjectOf(roles, AccountOf(before)), power) <==> Has(SubjectOf(roles, AccountOf(after)), power)
  {
    SameSetMeansElements(before.roles, after.roles);
    SameSetMeansElements(before.ext, after.ext);
    SameSetMeansElements(before.allowed, after.allowed);
    SameGrantsMeansEqual(before.grants, after.grants);
    var a, b := AccountOf(before), AccountOf(after);
    SameMembers(before.roles, after.roles);
    match power
    case Extension(key) =>
      SubjectKeys(roles, a, key);
      SubjectKeys(roles, b, key);
    case InPanel(area, level) =>
      SubjectLevels(roles, a, area, level);
      SubjectLevels(roles, b, area, level);
    case OnServer(area, level, server) =>
      SubjectLevels(roles, a, area, level);
      SubjectLevels(roles, b, area, level);
  }

  lemma SameMembers<T>(a: seq<T>, b: seq<T>)
    requires Elements(a) == Elements(b)
    ensures forall x :: x in a <==> x in b
  {
    forall x
      ensures x in a <==> x in b
    {
      assert x in Elements(a) <==> x in Elements(b);
    }
  }
}
