/** Who may give, change or take over what: the verdicts on one request. */
module AccountPolicy {
  import opened JsText
  import opened AccessLevels

  datatype RoleAccess = RoleAccess(grants: AccessMap, ext: set<string>)

  datatype Reason =
    | RoleAbove | AdminTarget | AccountAbove | TargetSeesAllServers | TargetForeignServers
    | MembersOutside | AssignAbove | GiveAbove | GiveAllServers | GiveForeignServers

  datatype Verdict = Allowed | Denied(reason: Reason)

  /** What an account ends up with after a create or update. */
  datatype AccessPlan = AccessPlan(
    roles: seq<RoleAccess>, grants: AccessMap, ext: set<string>, restrict: ServersRestrict)

  function GrantsOf(roles: seq<RoleAccess>): (maps: seq<AccessMap>)
    ensures |maps| == |roles| && forall i :: 0 <= i < |roles| ==> maps[i] == roles[i].grants
  {
    seq(|roles|, i requires 0 <= i < |roles| => roles[i].grants)
  }

  function ExtOf(roles: seq<RoleAccess>): (keys: set<string>)
    ensures forall key :: key in keys <==> exists i :: 0 <= i < |roles| && key in roles[i].ext
  {
    if roles == [] then {} else ExtOf(roles[..|roles| - 1]) + roles[|roles| - 1].ext
  }

  function EffectiveAccess(roles: seq<RoleAccess>, grants: AccessMap, ext: set<string>): UserAccess {
    UserAccess(MergeAccess(GrantsOf(roles) + [grants]), ExtOf(roles) + ext)
  }

  /** Levels and keys the actor does not have itself. */
  function AccessAbove(actor: Subject, access: UserAccess): UserAccess {
    if actor.isAdmin then UserAccess(map[], {})
    else UserAccess(
      map area | area in access.levels && !Covers(actor.access.levels, area, access.levels[area])
        :: access.levels[area],
      access.ext - actor.access.ext)
  }

  predicate NothingAbove(actor: Subject, access: UserAccess) {
    AccessAbove(actor, access) == UserAccess(map[], {})
  }

  function CanUseRole(actor: Subject, role: RoleAccess): Verdict {
    if NothingAbove(actor, UserAccess(role.grants, role.ext)) then Allowed else Denied(RoleAbove)
  }

  /** Taking over an account gives its levels on every server it sees. */
  function CanReachServers(actor: Subject, target: Subject): Verdict {
    if SeesAllServers(actor) then Allowed
    else if SeesAllServers(target) then Denied(TargetSeesAllServers)
    else if target.restrict.allowed - actor.restrict.allowed != {} then Denied(TargetForeignServers)
    else Allowed
  }

  function CanManageAccount(actor: Subject, target: Subject): Verdict {
    if target.isAdmin && !actor.isAdmin then Denied(AdminTarget)
    else if !NothingAbove(actor, target.access) then Denied(AccountAbove)
    else CanReachServers(actor, target)
  }

  /** Roles are global: a restricted actor may not change one used outside its servers. */
  function CanChangeRoleMembers(actor: Subject, members: set<Subject>): Verdict {
    if exists m :: m in members && CanReachServers(actor, m) != Allowed then Denied(MembersOutside) else Allowed
  }

  function ServersWithin(own: ServersRestrict, given: ServersRestrict): Verdict {
    if !given.enabled then Denied(GiveAllServers)
    else if given.allowed - own.allowed != {} then Denied(GiveForeignServers)
    else Allowed
  }

  function CanGrant(actor: Subject, next: AccessPlan): Verdict {
    if actor.isAdmin then Allowed
    else if exists i :: 0 <= i < |next.roles|
                        && !NothingAbove(actor, UserAccess(next.roles[i].grants, next.roles[i].ext))
      then Denied(AssignAbove)
    else if !NothingAbove(actor, EffectiveAccess(next.roles, next.grants, next.ext)) then Denied(GiveAbove)
    else if SeesAllServers(actor) then Allowed
    else ServersWithin(actor.restrict, next.restrict)
  }

  /** An allowed verdict about access means the actor has all of it. */
  lemma NothingAboveMeansHeld(actor: Subject, access: UserAccess)
    ensures NothingAbove(actor, access) <==>
      (&& (forall area :: area in access.levels ==> Can(actor, area, access.levels[area]))
       && (forall key :: key in access.ext ==> HasExtPermission(actor, key)))
  {
    var above := AccessAbove(actor, access);
    if NothingAbove(actor, access) && !actor.isAdmin {
      forall area | area in access.levels
        ensures Can(actor, area, access.levels[area])
      {
        assert area !in above.levels;
      }
      forall key | key in access.ext
        ensures HasExtPermission(actor, key)
      {
        assert key !in above.ext;
      }
    }
  }

  predicate SomeRoleCovers(roles: seq<RoleAccess>, area: Area, level: Level) {
    exists i :: 0 <= i < |roles| && Covers(roles[i].grants, area, level)
  }

  /** An account's level in an area comes from its own grants or from one of its roles. */
  lemma EffectiveLevel(roles: seq<RoleAccess>, grants: AccessMap, ext: set<string>, area: Area, level: Level)
    ensures Covers(EffectiveAccess(roles, grants, ext).levels, area, level) <==>
            Covers(grants, area, level) || SomeRoleCovers(roles, area, level)
  {
    hide MergeAccess, Covers;
    var maps := GrantsOf(roles) + [grants];
    MergeIsJoin(maps, area, level);
    if Covers(grants, area, level) { assert Covers(maps[|roles|], area, level); }
    if i :| 0 <= i < |roles| && Covers(roles[i].grants, area, level) { assert Covers(maps[i], area, level); }
    if i :| 0 <= i < |maps| && Covers(maps[i], area, level) {
      assert i < |roles| ==> maps[i] == roles[i].grants;
    }
  }

  /** A granted plan gives only levels, keys and servers the actor has. */
  lemma GrantedPlanIsHeld(actor: Subject, next: AccessPlan)
    requires CanGrant(actor, next) == Allowed
    ensures forall area, level ::
      Covers(EffectiveAccess(next.roles, next.grants, next.ext).levels, area, level) ==> Can(actor, area, level)
    ensures forall key :: key in EffectiveAccess(next.roles, next.grants, next.ext).ext ==> HasExtPermission(actor, key)
    ensures forall server ::
      ReachesServer(Subject(false, UserAccess(map[], {}), next.restrict), server) ==> ReachesServer(actor, server)
  {
    if !actor.isAdmin {
      var access := EffectiveAccess(next.roles, next.grants, next.ext);
      NothingAboveMeansHeld(actor, access);
      assert !SeesAllServers(actor) ==>
               forall server :: server in next.restrict.allowed ==> server in actor.restrict.allowed by {
        assert forall server :: (server in next.restrict.allowed && server !in actor.restrict.allowed
                                 ==> server in next.restrict.allowed - actor.restrict.allowed);
      }
    }
  }

  /** `canGrant` is exact: it allows a plan just when everything in it is the actor's own. */
  lemma CanGrantExactly(actor: Subject, next: AccessPlan)
    ensures var access := EffectiveAccess(next.roles, next.grants, next.ext);
            CanGrant(actor, next) == Allowed <==>
            (&& (forall area :: area in access.levels ==> Can(actor, area, access.levels[area]))
             && (forall key :: key in access.ext ==> HasExtPermission(actor, key))
             && (SeesAllServers(actor) || (next.restrict.enabled && next.restrict.allowed <= actor.restrict.allowed)))
  {
    var access := EffectiveAccess(next.roles, next.grants, next.ext);
    NothingAboveMeansHeld(actor, access);
    if NothingAbove(actor, access) {
      forall i | 0 <= i < |next.roles|
        ensures NothingAbove(actor, UserAccess(next.roles[i].grants, next.roles[i].ext))
      {
        RoleBelowPlan(actor, next, i);
      }
    }
    SubsetByDifference(next.restrict.allowed, actor.restrict.allowed);
  }

  lemma SubsetByDifference(a: set<Id>, b: set<Id>)
    ensures a - b == {} <==> a <= b
  {
    assert forall x :: x in a ==> x in b || x in a - b;
  }

  lemma RoleBelowPlan(actor: Subject, next: AccessPlan, i: nat)
    requires i < |next.roles| && NothingAbove(actor, EffectiveAccess(next.roles, next.grants, next.ext))
    ensures NothingAbove(actor, UserAccess(next.roles[i].grants, next.roles[i].ext))
  {
    var role, access := next.roles[i], EffectiveAccess(next.roles, next.grants, next.ext);
    NothingAboveMeansHeld(actor, access);
    NothingAboveMeansHeld(actor, UserAccess(role.grants, role.ext));
    forall area | area in role.grants
      ensures Can(actor, area, role.grants[area])
    {
      assert SomeRoleCovers(next.roles, area, role.grants[area]);
      EffectiveLevel(next.roles, next.grants, next.ext, area, role.grants[area]);
    }
  }

  /** However many servers a restriction lists, some id is not among them. */
  lemma {:induction false} SomeIdOutside(listed: set<Id>) returns (id: Id)
    ensures id !in listed && forall x :: x in listed ==> |x| < |id|
    decreases |listed|
  {
    if listed == {} {
      id := "";
    } else {
      var x :| x in listed;
      var longer := SomeIdOutside(listed - {x});
      id := longer + x + "+";
      assert forall y :: y in listed ==> y == x || y in listed - {x};
    }
  }

  /** An allowed target reaches only servers of the actor, and only such targets are allowed. */
  lemma ReachableExactly(actor: Subject, target: Subject)
    ensures CanReachServers(actor, target) == Allowed <==>
            forall server :: ReachesServer(target, server) ==> ReachesServer(actor, server)
  {
    SubsetByDifference(target.restrict.allowed, actor.restrict.allowed);
    if !SeesAllServers(actor) {
      if SeesAllServers(target) {
        var outside := SomeIdOutside(actor.restrict.allowed);
        assert ReachesServer(target, outside) && !ReachesServer(actor, outside);
      } else if CanReachServers(actor, target) != Allowed {
        var foreign :| foreign in target.restrict.allowed - actor.restrict.allowed;
        assert ReachesServer(target, foreign) && !ReachesServer(actor, foreign);
      }
    }
  }

  /** `canManageAccount` is exact: an account may be taken over just when that gives the actor nothing new. */
  lemma CanManageExactly(actor: Subject, target: Subject)
    ensures CanManageAccount(actor, target) == Allowed <==>
            (&& (target.isAdmin ==> actor.isAdmin)
             && (forall area, level :: Can(target, area, level) ==> Can(actor, area, level))
             && (forall key :: HasExtPermission(target, key) ==> HasExtPermission(actor, key))
             && (forall server :: ReachesServer(target, server) ==> ReachesServer(actor, server)))
  {
    NothingAboveMeansHeld(actor, target.access);
    ReachableExactly(actor, target);
    LevelsHeld(actor, target.access.levels);
  }

  lemma LevelsHeld(actor: Subject, levels: AccessMap)
    ensures (forall area :: area in levels ==> Can(actor, area, levels[area])) <==>
            (forall area, level :: Covers(levels, area, level) ==> Can(actor, area, level))
  {
    forall area | area in levels
      ensures Covers(levels, area, levels[area])
    {
    }
  }

  lemma AboveMeansMissing(actor: Subject, access: UserAccess)
    requires !NothingAbove(actor, access)
    ensures !actor.isAdmin
    ensures (exists area :: area in access.levels && !Can(actor, area, access.levels[area]))
            || (exists key :: key in access.ext && key !in actor.access.ext)
  {
    NothingAboveMeansHeld(actor, access);
  }

  /** The reason for which managing an account is refused is really the case. */
  lemma ManageReasons(actor: Subject, target: Subject)
    requires CanManageAccount(actor, target).Denied?
    ensures match CanManageAccount(actor, target).reason
            case AdminTarget => target.isAdmin && !actor.isAdmin
            case AccountAbove =>
              || (exists area :: area in target.access.levels && !Can(actor, area, target.access.levels[area]))
              || (exists key :: key in target.access.ext && key !in actor.access.ext)
            case TargetSeesAllServers => (target.isAdmin || !target.restrict.enabled) && actor.restrict.enabled
            case TargetForeignServers => exists id :: id in target.restrict.allowed && id !in actor.restrict.allowed
            case _ => false
  {
    if !NothingAbove(actor, target.access) { AboveMeansMissing(actor, target.access); }
    SubsetByDifference(target.restrict.allowed, actor.restrict.allowed);
  }

  /** And so is the reason for which a plan is refused. */
  lemma GrantReasons(actor: Subject, next: AccessPlan)
    requires CanGrant(actor, next).Denied?
    ensures !actor.isAdmin
    ensures match CanGrant(actor, next).reason
            case AssignAbove =>
              exists i :: 0 <= i < |next.roles| && var role := next.roles[i];
                || (exists area :: area in role.grants && !Can(actor, area, role.grants[area]))
                || (exists key :: key in role.ext && key !in actor.access.ext)
            case GiveAbove =>
              var access := EffectiveAccess(next.roles, next.grants, next.ext);
              || (exists area :: area in access.levels && !Can(actor, area, access.levels[area]))
              || (exists key :: key in access.ext && key !in actor.access.ext)
            case GiveAllServers => !next.restrict.enabled && actor.restrict.enabled
            case GiveForeignServers => exists id :: id in next.restrict.allowed && id !in actor.restrict.allowed
            case _ => false
  {
    if i :| 0 <= i < |next.roles| && !NothingAbove(actor, UserAccess(next.roles[i].grants, next.roles[i].ext)) {
      AboveMeansMissing(actor, UserAccess(next.roles[i].grants, next.roles[i].ext));
    } else if !NothingAbove(actor, EffectiveAccess(next.roles, next.grants, next.ext)) {
      AboveMeansMissing(actor, EffectiveAccess(next.roles, next.grants, next.ext));
    }
    SubsetByDifference(next.restrict.allowed, actor.restrict.allowed);
  }
}
