/** Access areas and levels: a lattice of level maps, and what an account may do with them. */
module AccessLevels {
  import opened JsText

  datatype Area =
    | Console | Power | Settings | Files | Content | Players | Backups | Scheduler | Servers
    | Networks | Accounts | Audit | Monitoring | Java | Storages | Integrations | Assistant | Panel

  datatype Level = Read | Write | Manage

  type AccessMap = map<Area, Level>

  /** Levels that mean something in an area, others are never stored. */
  function AreaLevels(area: Area): set<Level> {
    match area
    case Console => {Read, Write}
    case Servers => {Write, Manage}
    case Audit => {Read, Manage}
    case Monitoring => {Read}
    case Storages => {Read, Manage}
    case Integrations => {Manage}
    case Assistant => {Read, Manage}
    case Panel => {Manage}
    case _ => {Read, Write, Manage}
  }

  function Rank(level: Level): nat {
    match level
    case Read => 1
    case Write => 2
    case Manage => 3
  }

  function LevelIn(levels: AccessMap, area: Area): Option<Level> {
    if area in levels then Some(levels[area]) else None
  }

  predicate LevelAtLeast(level: Option<Level>, needed: Level) {
    level.Some? && Rank(level.value) >= Rank(needed)
  }

  function MaxLevel(a: Option<Level>, b: Option<Level>): Option<Level> {
    if a.None? then b
    else if b.None? then a
    else if Rank(a.value) >= Rank(b.value) then a else b
  }

  /** The map gives at least this level in this area. */
  predicate Covers(levels: AccessMap, area: Area, level: Level) {
    LevelAtLeast(LevelIn(levels, area), level)
  }

  const LEVELS: seq<Level> := [Read, Write, Manage]

  /** The levels stand in this order, and no level is below all of them. */
  lemma LevelsInOrder(i: nat, j: nat)
    requires i < 3 && j < 3
    ensures LevelAtLeast(Some(LEVELS[i]), LEVELS[j]) <==> i >= j
    ensures !LevelAtLeast(None, LEVELS[j])
    ensures MaxLevel(Some(LEVELS[i]), Some(LEVELS[j])) == Some(LEVELS[if i >= j then i else j])
  {
  }

  /** Which levels mean something where: reading, writing and managing are missing in these areas only. */
  lemma MeaningfulLevels(area: Area)
    ensures Read in AreaLevels(area) <==> area !in {Servers, Integrations, Panel}
    ensures Write in AreaLevels(area) <==> area !in {Audit, Monitoring, Storages, Integrations, Assistant, Panel}
    ensures Manage in AreaLevels(area) <==> area !in {Console, Monitoring}
  {
  }

  /** Every level of `a` is covered by `b`. */
  predicate AccessWithin(a: AccessMap, b: AccessMap) {
    forall area :: area in a ==> Covers(b, area, a[area])
  }

  ghost predicate CoveredBySome(maps: seq<AccessMap>, area: Area, level: Level) {
    exists i :: 0 <= i < |maps| && Covers(maps[i], area, level)
  }

  lemma CoveredOneMore(maps: seq<AccessMap>, i: nat)
    requires i < |maps|
    ensures forall area, level ::
      CoveredBySome(maps[..i + 1], area, level) <==>
      CoveredBySome(maps[..i], area, level) || Covers(maps[i], area, level)
  {
    forall area, level
      ensures CoveredBySome(maps[..i + 1], area, level) <==>
              CoveredBySome(maps[..i], area, level) || Covers(maps[i], area, level)
    {
      assert forall j :: 0 <= j < i ==> maps[..i][j] == maps[..i + 1][j];
      assert maps[..i + 1][i] == maps[i];
      if CoveredBySome(maps[..i], area, level) {
        var j :| 0 <= j < |maps[..i]| && Covers(maps[..i][j], area, level);
        assert Covers(maps[..i + 1][j], area, level);
      }
    }
  }

  function Merge2(a: AccessMap, b: AccessMap): AccessMap {
    map area | area in a.Keys + b.Keys :: MaxLevel(LevelIn(a, area), LevelIn(b, area)).value
  }

  /** Highest level per area over all maps. */
  function MergeAccess(maps: seq<AccessMap>): AccessMap {
    if maps == [] then map[] else Merge2(MergeAccess(maps[..|maps| - 1]), maps[|maps| - 1])
  }

  /** The merge is the join: it covers exactly what some map covers. */
  lemma {:induction false} MergeIsJoin(maps: seq<AccessMap>, area: Area, level: Level)
    ensures Covers(MergeAccess(maps), area, level) <==> CoveredBySome(maps, area, level)
  {
    if maps != [] {
      var n := |maps| - 1;
      MergeIsJoin(maps[..n], area, level);
      CoveredOneMore(maps, n);
      assert maps[..n + 1] == maps;
      hide CoveredBySome, Covers;
      Merge2IsJoin(MergeAccess(maps[..n]), maps[n], area, level);
    }
  }

  lemma Merge2IsJoin(a: AccessMap, b: AccessMap, area: Area, level: Level)
    ensures Covers(Merge2(a, b), area, level) <==> Covers(a, area, level) || Covers(b, area, level)
  {
  }

  /** Least upper bound: a map above all the merged ones is above the merge. */
  lemma MergeIsLeast(maps: seq<AccessMap>, bound: AccessMap)
    requires forall i :: 0 <= i < |maps| ==> AccessWithin(maps[i], bound)
    ensures AccessWithin(MergeAccess(maps), bound)
  {
    forall area | area in MergeAccess(maps)
      ensures Covers(bound, area, MergeAccess(maps)[area])
    {
      MergeIsJoin(maps, area, MergeAccess(maps)[area]);
    }
  }

  /** A level map is determined by what it covers, so the loop computes the specified merge. */
  lemma CoverageDetermines(a: AccessMap, b: AccessMap)
    requires forall area, level :: Covers(a, area, level) <==> Covers(b, area, level)
    ensures a == b
  {
    forall area
      ensures area in a <==> area in b
      ensures area in a ==> a[area] == b[area]
    {
      assert Covers(a, area, Read) <==> Covers(b, area, Read);
      assert Covers(a, area, Write) <==> Covers(b, area, Write);
      assert Covers(a, area, Manage) <==> Covers(b, area, Manage);
    }
  }

  /** Joins level maps area by area, in place over the merged map as the panel does. */
  method MergeMaps(maps: seq<AccessMap>) returns (merged: AccessMap)
    ensures merged == MergeAccess(maps)
    ensures forall area, level :: Covers(merged, area, level) <==> CoveredBySome(maps, area, level)
  {
    merged := map[];
    var i := 0;
    while i < |maps|
      invariant 0 <= i <= |maps|
      invariant forall area, level :: Covers(merged, area, level) <==> CoveredBySome(maps[..i], area, level)
    {
      ghost var before := merged;
      var areas := maps[i].Keys;
      while areas != {}
        invariant areas <= maps[i].Keys
        invariant forall area, level ::
          Covers(merged, area, level) <==>
          Covers(before, area, level) || (area !in areas && Covers(maps[i], area, level))
        decreases |areas|
      {
        var area :| area in areas;
        areas := areas - {area};
        var best := MaxLevel(LevelIn(merged, area), Some(maps[i][area]));
        merged := merged[area := best.value];
      }
      CoveredOneMore(maps, i);
      i := i + 1;
    }
    assert maps[..i] == maps;
    forall area, level
      ensures Covers(merged, area, level) <==> Covers(MergeAccess(maps), area, level)
    {
      MergeIsJoin(maps, area, level);
    }
    CoverageDetermines(merged, MergeAccess(maps));
  }

  // ----- subjects

  datatype UserAccess = UserAccess(levels: AccessMap, ext: set<string>)

  /** `enabled` means only the servers in `allowed`. */
  datatype ServersRestrict = ServersRestrict(enabled: bool, allowed: set<Id>)

  datatype Subject = Subject(isAdmin: bool, access: UserAccess, restrict: ServersRestrict)

  predicate Can(user: Subject, area: Area, level: Level) {
    user.isAdmin || Covers(user.access.levels, area, level)
  }

  /** The stored levels that are enough for a needed one. */
  function Enough(needed: Level): set<Level> {
    match needed
    case Read => {Read, Write, Manage}
    case Write => {Write, Manage}
    case Manage => {Manage}
  }

  /** Admins may everything, others what a stored level of the area is enough for. */
  lemma CanExactly(user: Subject, area: Area, level: Level)
    ensures Can(user, area, level) <==>
            user.isAdmin || (area in user.access.levels && user.access.levels[area] in Enough(level))
  {
  }

  predicate SeesAllServers(user: Subject) {
    user.isAdmin || !user.restrict.enabled
  }

  predicate ReachesServer(user: Subject, server: Id) {
    SeesAllServers(user) || server in user.restrict.allowed
  }

  predicate CanOnServer(user: Subject, area: Area, level: Level, server: Id) {
    Can(user, area, level) && ReachesServer(user, server)
  }

  predicate HasExtPermission(user: Subject, key: string) {
    user.isAdmin || key in user.access.ext
  }
}
