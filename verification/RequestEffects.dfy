/** What each account and role request does, told from the stored records before and after it. */
module RequestEffects {
  import opened JsText
  import opened Collections
  import opened AccessLevels
  import opened AccountPolicy
  import opened RoleNames
  import opened PanelSteps
  import opened Confinement

  // ----- what a stored account can do

  /** Its own grants or one of its roles hold a level that is enough. */
  ghost predicate GivesLevel(roles: map<Id, Role>, ids: seq<Id>, grants: AccessMap, area: Area, level: Level) {
    || (area in grants && grants[area] in Enough(level))
    || (exists id :: id in ids && id in roles
                     && area in roles[id].access.grants && roles[id].access.grants[area] in Enough(level))
  }

  ghost predicate GivesKey(roles: map<Id, Role>, ids: seq<Id>, ext: set<string>, key: string) {
    key in ext || exists id :: id in ids && id in roles && key in roles[id].access.ext
  }

  lemma CoversExactly(levels: AccessMap, area: Area, level: Level)
    ensures Covers(levels, area, level) <==> area in levels && levels[area] in Enough(level)
  {
  }

  lemma SubjectGives(roles: map<Id, Role>, account: Account, area: Area, level: Level)
    ensures Covers(SubjectOf(roles, account).access.levels, area, level)
            <==> GivesLevel(roles, account.roles, account.grants, area, level)
  {
    SubjectLevels(roles, account, area, level);
    CoversExactly(account.grants, area, level);
    hide SubjectOf, Covers, Enough;
    forall id | id in roles
      ensures Covers(roles[id].access.grants, area, level) <==>
              area in roles[id].access.grants && roles[id].access.grants[area] in Enough(level)
    {
      CoversExactly(roles[id].access.grants, area, level);
    }
  }

  /** Every power of an account, read off its record and those of its roles. */
  lemma PowersOfAccount(state: PanelState, id: Id, power: Power)
    requires id in state.accounts
    ensures var a := state.accounts[id];
            Holds(state, id, power) <==>
            match power
            case InPanel(area, level) => a.isAdmin || GivesLevel(state.roles, a.roles, a.grants, area, level)
            case OnServer(area, level, server) =>
              && (a.isAdmin || GivesLevel(state.roles, a.roles, a.grants, area, level))
              && (a.isAdmin || !a.restrict.enabled || server in a.restrict.allowed)
            case Extension(key) => a.isAdmin || GivesKey(state.roles, a.roles, a.ext, key)
  {
    var a := state.accounts[id];
    match power
    case InPanel(area, level) => SubjectGives(state.roles, a, area, level);
    case OnServer(area, level, server) => SubjectGives(state.roles, a, area, level);
    case Extension(key) => SubjectKeys(state.roles, a, key);
  }

  // ----- what a request needs

  /** The actor has the account level a request needs. */
  predicate MayAsk(actor: Subject, enough: set<Level>) {
    actor.isAdmin || (Accounts in actor.access.levels && actor.access.levels[Accounts] in enough)
  }

  /** Account requests need the write level of the accounts area, role requests its manage level. */
  lemma GuardExactly(state: PanelState, actor: Subject, req: Request)
    ensures var ofAccounts := req.CreateAccount? || req.UpdateAccount? || req.DeleteAccount?;
            var enough := if ofAccounts then {Write, Manage} else {Manage};
            && (Decide(state, actor, req).response == NoPermission <==> !MayAsk(actor, enough))
            && (!MayAsk(actor, enough) ==> Decide(state, actor, req).write == Nothing)
  {
    CanExactly(actor, Accounts, NeededLevel(req));
    PastGuard(state, actor, req);
    hide Can, Decide;
  }

  lemma PastGuard(state: PanelState, actor: Subject, req: Request)
    ensures Decide(state, actor, req).response == NoPermission <==> !Can(actor, Accounts, NeededLevel(req))
    ensures !Can(actor, Accounts, NeededLevel(req)) ==> Decide(state, actor, req).write == Nothing
  {
    hide Can, CanGrant, CanManageAccount, PlanOf, SubjectOf, CanUseRole, MayChange, NameTaken, TakenByOther, AllKnown,
         Trim, DuplicateName, NextRole, Amended, NewAccount;
  }

  /** Nothing that is given exceeds what the actor has, on no server it cannot reach. */
  ghost predicate IsHeld(actor: Subject, roles: map<Id, Role>, ids: seq<Id>, grants: AccessMap, ext: set<string>,
                         restrict: ServersRestrict) {
    && (forall area, level :: GivesLevel(roles, ids, grants, area, level) ==> Can(actor, area, level))
    && (forall key :: GivesKey(roles, ids, ext, key) ==> HasExtPermission(actor, key))
    && (actor.isAdmin || !actor.restrict.enabled || (restrict.enabled && restrict.allowed <= actor.restrict.allowed))
  }

  /** The account's own access and servers are within the actor's, and it is no admin's unless the actor is one. */
  ghost predicate IsWithin(actor: Subject, roles: map<Id, Role>, account: Account) {
    || actor.isAdmin
    || (!account.isAdmin && IsHeld(actor, roles, account.roles, account.grants, account.ext, account.restrict))
  }

  lemma CoversDown(levels: AccessMap, actor: Subject)
    ensures (forall area :: area in levels ==> Can(actor, area, levels[area])) <==>
            (forall area, level :: Covers(levels, area, level) ==> Can(actor, area, level))
  {
    LevelsHeld(actor, levels);
  }

  lemma PlanIsHeld(state: PanelState, actor: Subject, account: Account)
    ensures CanGrant(actor, PlanOf(state.roles, account)) == Allowed <==>
            IsHeld(actor, state.roles, account.roles, account.grants, account.ext, account.restrict)
  {
    var plan := PlanOf(state.roles, account);
    var access := EffectiveAccess(plan.roles, plan.grants, plan.ext);
    CanGrantExactly(actor, plan);
    CoversDown(access.levels, actor);
    forall area, level
      ensures Covers(access.levels, area, level) <==>
              GivesLevel(state.roles, account.roles, account.grants, area, level)
    {
      PlanGives(state, account, area, level);
    }
    forall key
      ensures key in access.ext <==> GivesKey(state.roles, account.roles, account.ext, key)
    {
      PlanGivesKey(state, account, key);
    }
  }

  lemma PlanGives(state: PanelState, account: Account, area: Area, level: Level)
    ensures var plan := PlanOf(state.roles, account);
            Covers(EffectiveAccess(plan.roles, plan.grants, plan.ext).levels, area, level) <==>
            GivesLevel(state.roles, account.roles, account.grants, area, level)
  {
    var planned := account.(roles := Unique(account.roles));
    SubjectGives(state.roles, planned, area, level);
    assert forall id :: id in planned.roles <==> id in account.roles;
  }

  lemma PlanGivesKey(state: PanelState, account: Account, key: string)
    ensures var plan := PlanOf(state.roles, account);
            key in EffectiveAccess(plan.roles, plan.grants, plan.ext).ext <==>
            GivesKey(state.roles, account.roles, account.ext, key)
  {
    var planned := account.(roles := Unique(account.roles));
    SubjectKeys(state.roles, planned, key);
    assert forall id :: id in planned.roles <==> id in account.roles;
  }

  lemma ManagedIsWithin(actor: Subject, roles: map<Id, Role>, account: Account)
    ensures CanManageAccount(actor, SubjectOf(roles, account)) == Allowed <==> IsWithin(actor, roles, account)
  {
    var target := SubjectOf(roles, account);
    if !actor.isAdmin && !account.isAdmin {
      NothingAboveMeansHeld(actor, target.access);
      CoversDown(target.access.levels, actor);
      forall area, level
        ensures Covers(target.access.levels, area, level) <==>
                GivesLevel(roles, account.roles, account.grants, area, level)
      {
        SubjectGives(roles, account, area, level);
      }
      forall key
        ensures key in target.access.ext <==> GivesKey(roles, account.roles, account.ext, key)
      {
        SubjectKeys(roles, account, key);
      }
      SubsetByDifference(account.restrict.allowed, actor.restrict.allowed);
    }
  }

  // ----- what is stored

  /** The record holds what was given: meaningful levels, known roles once each, existing servers. */
  ghost predicate IsRecordOf(state: PanelState, given: Account, stored: Account) {
    && (forall id :: id in stored.roles <==> id in given.roles && id in state.roles)
    && NoRepeats(stored.roles)
    && SameGrants(given.grants, stored.grants)
    && stored.ext == given.ext
    && stored.restrict.enabled == given.restrict.enabled
    && (forall server :: server in stored.restrict.allowed <==>
          server in given.restrict.allowed && server in state.servers)
    && stored.isAdmin == given.isAdmin
  }

  /** The meaningful levels that were given, and no others. */
  ghost predicate SameGrants(given: AccessMap, stored: AccessMap) {
    forall area :: && (area in stored <==> area in given && given[area] in AreaLevels(area))
                   && (area in stored ==> stored[area] == given[area])
  }

  lemma {:induction false} KnownRolesOnce(roles: map<Id, Role>, ids: seq<Id>)
    requires NoRepeats(ids)
    ensures NoRepeats(KnownRoles(roles, ids))
  {
    if ids != [] {
      var init, last := ids[..|ids| - 1], ids[|ids| - 1];
      NoRepeatsSnoc(ids);
      KnownRolesOnce(roles, init);
      if last in roles {
        var known := KnownRoles(roles, ids);
        assert known == KnownRoles(roles, init) + [last] && known[..|known| - 1] == KnownRoles(roles, init);
        NoRepeatsSnoc(known);
      } else {
        assert KnownRoles(roles, ids) == KnownRoles(roles, init);
      }
    }
  }

  lemma StoredIsRecord(state: PanelState, given: Account)
    ensures IsRecordOf(state, given, Stored(state, given))
  {
    var stored := Stored(state, given);
    KnownRolesOnce(state.roles, Unique(given.roles));
    StoredGrantsAreGiven(given.grants);
    hide KnownRoles, Unique, SameGrants, StoredGrants;
    assert forall id :: id in stored.roles <==> id in given.roles && id in state.roles;
  }

  lemma StoredGrantsAreGiven(grants: AccessMap)
    ensures SameGrants(grants, StoredGrants(grants))
  {
  }

  // ----- account requests

  /**
   * Creating an account succeeds just when the actor may write accounts, every role exists, everything given is
   * the actor's own and the id is free. Then the new record holds what was given, it is no admin, it is limited
   * to servers when some were given, and nothing else changes. Refused, nothing changes.
   */
  lemma CreateAccountExactly(state: PanelState, actor: Id, req: Request)
    requires actor in state.accounts && req.CreateAccount?
    ensures var user := SubjectOf(state.roles, state.accounts[actor]);
            var given := Account(req.givenRoles, req.givenGrants, req.givenExt,
                                 ServersRestrict(req.givenServers != {}, req.givenServers), false);
            var done := Decide(state, user, req).response == Done;
            && (done <==>
                  && MayAsk(user, {Write, Manage})
                  && (forall id :: id in req.givenRoles ==> id in state.roles)
                  && IsHeld(user, state.roles, given.roles, given.grants, given.ext, given.restrict)
                  && req.newId !in state.accounts)
            && (if !done then Step(state, actor, req) == state
                else exists stored :: IsRecordOf(state, given, stored)
                       && Step(state, actor, req) == state.(accounts := state.accounts[req.newId := stored]))
  {
    var user := SubjectOf(state.roles, state.accounts[actor]);
    var given := NewAccount(req);
    assert given == Account(req.givenRoles, req.givenGrants, req.givenExt,
                            ServersRestrict(req.givenServers != {}, req.givenServers), false);
    hide *;
    GuardedWrite(user);
    KnownExactly(state.roles, given.roles);
    PlanIsHeld(state, user, given);
    StoredIsRecord(state, given);
    CreateSteps(state, actor, user, req, given);
  }

  lemma CreateSteps(state: PanelState, actor: Id, user: Subject, req: Request, given: Account)
    requires actor in state.accounts && req.CreateAccount? && user == SubjectOf(state.roles, state.accounts[actor])
    requires given == NewAccount(req)
    ensures var done := Decide(state, user, req).response == Done;
            && (done <==> Can(user, Accounts, Write) && AllKnown(state.roles, given.roles)
                          && CanGrant(user, PlanOf(state.roles, given)) == Allowed && req.newId !in state.accounts)
            && (done ==> Step(state, actor, req)
                         == state.(accounts := state.accounts[req.newId := Stored(state, given)]))
            && (!done ==> Step(state, actor, req) == state)
  {
    hide SubjectOf, CanGrant, PlanOf, Can, Stored;
  }

  /** The record an update asks for: the fields it names, the others as they were, admin rights only by admins. */
  ghost predicate IsAmended(user: Subject, before: Account, req: Request, given: Account)
    requires req.UpdateAccount?
  {
    && (forall id :: id in given.roles <==> id in (if req.roles.Some? then req.roles.value else before.roles))
    && given.grants == (if req.grants.Some? then req.grants.value else before.grants)
    && given.ext == (if req.ext.Some? then req.ext.value else before.ext)
    && given.restrict == (if req.restrict.Some? then req.restrict.value else before.restrict)
    && given.isAdmin == (if req.admin.Some? && user.isAdmin then req.admin.value else before.isAdmin)
  }

  /**
   * Updating an account succeeds just when the actor may write accounts, the account exists and is within the
   * actor's reach, its roles exist and everything it then has is the actor's own. Then exactly the named fields
   * of that record change.
   */
  lemma UpdateAccountExactly(state: PanelState, actor: Id, req: Request) returns (given: Account)
    requires actor in state.accounts && req.UpdateAccount?
    ensures var user := SubjectOf(state.roles, state.accounts[actor]);
            var done := Decide(state, user, req).response == Done;
            && (req.target in state.accounts ==> IsAmended(user, state.accounts[req.target], req, given))
            && (done <==>
                  && MayAsk(user, {Write, Manage})
                  && req.target in state.accounts && IsWithin(user, state.roles, state.accounts[req.target])
                  && (forall id :: id in given.roles ==> id in state.roles)
                  && IsHeld(user, state.roles, given.roles, given.grants, given.ext, given.restrict))
            && (if !done then Step(state, actor, req) == state
                else exists stored :: IsRecordOf(state, given, stored)
                       && Step(state, actor, req) == state.(accounts := state.accounts[req.target := stored]))
  {
    var user := SubjectOf(state.roles, state.accounts[actor]);
    var before := if req.target in state.accounts then state.accounts[req.target] else state.accounts[actor];
    given := Amended(user, before, req);
    AmendedIsAmended(user, before, req);
    hide *;
    GuardedWrite(user);
    KnownExactly(state.roles, given.roles);
    PlanIsHeld(state, user, given);
    ManagedIsWithin(user, state.roles, before);
    StoredIsRecord(state, given);
    UpdateSteps(state, actor, user, req, given);
  }

  lemma GuardedWrite(user: Subject)
    ensures Can(user, Accounts, Write) <==> MayAsk(user, {Write, Manage})
  {
    CanExactly(user, Accounts, Write);
  }

  lemma KnownExactly(roles: map<Id, Role>, ids: seq<Id>)
    ensures AllKnown(roles, ids) <==> forall id :: id in ids ==> id in roles
  {
  }

  lemma AmendedIsAmended(user: Subject, before: Account, req: Request)
    requires req.UpdateAccount?
    ensures IsAmended(user, before, req, Amended(user, before, req))
  {
  }

  lemma UpdateSteps(state: PanelState, actor: Id, user: Subject, req: Request, given: Account)
    requires actor in state.accounts && req.UpdateAccount? && user == SubjectOf(state.roles, state.accounts[actor])
    requires req.target in state.accounts ==> given == Amended(user, state.accounts[req.target], req)
    ensures var done := Decide(state, user, req).response == Done;
            && (done <==> Can(user, Accounts, Write) && req.target in state.accounts
                          && CanManageAccount(user, SubjectOf(state.roles, state.accounts[req.target])) == Allowed
                          && AllKnown(state.roles, given.roles)
                          && CanGrant(user, PlanOf(state.roles, given)) == Allowed)
            && (done ==> Step(state, actor, req)
                         == state.(accounts := state.accounts[req.target := Stored(state, given)]))
            && (!done ==> Step(state, actor, req) == state)
  {
    hide SubjectOf, CanGrant, PlanOf, Can, Stored, CanManageAccount, Amended;
  }

  /** Deleting an account succeeds just when the actor may write accounts and the account is within its reach. */
  lemma DeleteAccountExactly(state: PanelState, actor: Id, req: Request)
    requires actor in state.accounts && req.DeleteAccount?
    ensures var user := SubjectOf(state.roles, state.accounts[actor]);
            var done := Decide(state, user, req).response == Done;
            && (done <==> MayAsk(user, {Write, Manage})
                          && req.target in state.accounts && IsWithin(user, state.roles, state.accounts[req.target]))
            && Step(state, actor, req) == if done then state.(accounts := state.accounts - {req.target}) else state
  {
    var user := SubjectOf(state.roles, state.accounts[actor]);
    CanExactly(user, Accounts, Write);
    if req.target in state.accounts { ManagedIsWithin(user, state.roles, state.accounts[req.target]); }
    hide SubjectOf, Can, IsWithin, CanManageAccount;
  }

  // ----- role requests

  ghost predicate AccessIsHeld(actor: Subject, access: RoleAccess) {
    && (forall area :: area in access.grants ==> Can(actor, area, access.grants[area]))
    && (forall key :: key in access.ext ==> HasExtPermission(actor, key))
  }

  lemma UsedIsHeld(actor: Subject, access: RoleAccess)
    ensures CanUseRole(actor, access) == Allowed <==> AccessIsHeld(actor, access)
  {
    NothingAboveMeansHeld(actor, UserAccess(access.grants, access.ext));
  }

  /** No other role has the name, in whatever case. */
  ghost predicate NameIsFree(roles: map<Id, Role>, name: Text, self: Option<Id>) {
    forall id :: id in roles && self != Some(id) ==> Fold(roles[id].name) != Fold(name)
  }

  lemma FreeMeansNotTaken(roles: map<Id, Role>, name: Text)
    ensures NameTaken(NamesOf(roles), name) <==> !NameIsFree(roles, name, None)
  {
    hide Fold;
    if id :| id in roles && Fold(roles[id].name) == Fold(name) {
      assert roles[id].name in NamesOf(roles);
    }
  }

  lemma FreeForOthers(roles: map<Id, Role>, name: Text, self: Id)
    ensures TakenByOther(roles, name, self) <==> !NameIsFree(roles, name, Some(self))
  {
    hide Fold;
  }

  /** The actor reaches every server that accounts with the role reach. */
  ghost predicate MembersWithin(state: PanelState, actor: Subject, role: Id) {
    forall id :: id in state.accounts && role in state.accounts[id].roles ==> ReachWithin(actor, state.accounts[id])
  }

  predicate ReachWithin(actor: Subject, a: Account) {
    || actor.isAdmin || !actor.restrict.enabled
    || (!a.isAdmin && a.restrict.enabled && a.restrict.allowed <= actor.restrict.allowed)
  }

  lemma ReachedExactly(roles: map<Id, Role>, actor: Subject, a: Account)
    ensures CanReachServers(actor, SubjectOf(roles, a)) == Allowed <==> ReachWithin(actor, a)
  {
    hide EffectiveAccess, RoleAccesses;
    SubsetByDifference(a.restrict.allowed, actor.restrict.allowed);
  }

  lemma ChangeNeeds(state: PanelState, actor: Subject, role: Id)
    requires role in state.roles
    ensures MayChange(state, actor, role) == Allowed <==>
            AccessIsHeld(actor, state.roles[role].access) && MembersWithin(state, actor, role)
  {
    UsedIsHeld(actor, state.roles[role].access);
    hide AccessIsHeld, CanUseRole;
    MembersExactly(state, actor, role);
    hide CanChangeRoleMembers, MembersWithin, Members;
  }

  lemma MembersExactly(state: PanelState, actor: Subject, role: Id)
    ensures CanChangeRoleMembers(actor, Members(state, role)) == Allowed <==> MembersWithin(state, actor, role)
  {
    hide CanReachServers, SubjectOf, ReachWithin, Members;
    forall m | m in Members(state, role) && MembersWithin(state, actor, role)
      ensures CanReachServers(actor, m) == Allowed
    {
      var id := MemberIs(state, role, m);
      ReachedExactly(state.roles, actor, state.accounts[id]);
    }
    forall id | id in state.accounts && role in state.accounts[id].roles
      ensures SubjectOf(state.roles, state.accounts[id]) in Members(state, role)
      ensures CanReachServers(actor, SubjectOf(state.roles, state.accounts[id])) == Allowed <==>
              ReachWithin(actor, state.accounts[id])
    {
      IsMember(state, role, id);
      ReachedExactly(state.roles, actor, state.accounts[id]);
    }
  }

  lemma MemberIs(state: PanelState, role: Id, m: Subject) returns (id: Id)
    requires m in Members(state, role)
    ensures id in state.accounts && role in state.accounts[id].roles && SubjectOf(state.roles, state.accounts[id]) == m
  {
    hide SubjectOf;
    id :| id in state.accounts && role in state.accounts[id].roles && SubjectOf(state.roles, state.accounts[id]) == m;
  }

  lemma IsMember(state: PanelState, role: Id, id: Id)
    requires id in state.accounts && role in state.accounts[id].roles
    ensures SubjectOf(state.roles, state.accounts[id]) in Members(state, role)
  {
    hide SubjectOf;
  }

  /** The role record holds the trimmed name and the meaningful levels that were given. */
  ghost predicate IsRoleOf(name: Text, builtin: bool, access: RoleAccess, stored: Role) {
    && stored.name == name && stored.builtin == builtin
    && SameGrants(access.grants, stored.access.grants) && stored.access.ext == access.ext
  }

  lemma StoredRoleIsRole(role: Role)
    ensures IsRoleOf(role.name, role.builtin, role.access, StoredRole(role))
  {
  }

  /** What creating a role with that name and access comes to, once the guard is passed. */
  ghost predicate CreatesRole(state: PanelState, user: Subject, id: Id, name: Text, access: RoleAccess, done: bool,
                              after: PanelState) {
    && (done <==> NameIsFree(state.roles, Trim(name), None) && AccessIsHeld(user, access) && id !in state.roles)
    && (if !done then after == state
        else exists stored :: IsRoleOf(Trim(name), false, access, stored)
               && after == state.(roles := state.roles[id := stored]))
  }

  lemma CreateDecision(state: PanelState, user: Subject, id: Id, name: Text, access: RoleAccess)
    ensures var decision := DecideCreateRole(state, user, id, name, access);
            CreatesRole(state, user, id, name, access, decision.response == Done, Commit(state, decision.write))
  {
    FreeMeansNotTaken(state.roles, Trim(name));
    UsedIsHeld(user, access);
    StoredRoleIsRole(Role(Trim(name), false, access));
    hide NameTaken, NameIsFree, AccessIsHeld, CanUseRole, IsRoleOf, StoredRole, Trim;
  }

  /** Creating a role: the manage level, a free name, access of the actor's own, a free id. */
  lemma CreateRoleExactly(state: PanelState, actor: Id, req: Request)
    requires actor in state.accounts && req.CreateRole?
    ensures var user := SubjectOf(state.roles, state.accounts[actor]);
            var done, after := Decide(state, user, req).response == Done, Step(state, actor, req);
            if MayAsk(user, {Manage})
            then CreatesRole(state, user, req.newRole, req.newName, req.newAccess, done, after)
            else !done && after == state
  {
    var user := SubjectOf(state.roles, state.accounts[actor]);
    CanExactly(user, Accounts, Manage);
    CreateDecision(state, user, req.newRole, req.newName, req.newAccess);
    hide *;
    CreateRoleStep(state, actor, user, req);
    Guarded(user);
  }

  lemma Guarded(user: Subject)
    ensures Can(user, Accounts, Manage) <==> MayAsk(user, {Manage})
  {
    CanExactly(user, Accounts, Manage);
  }

  lemma CreateRoleStep(state: PanelState, actor: Id, user: Subject, req: Request)
    requires actor in state.accounts && req.CreateRole? && user == SubjectOf(state.roles, state.accounts[actor])
    ensures var decision := if Can(user, Accounts, Manage)
                            then DecideCreateRole(state, user, req.newRole, req.newName, req.newAccess)
                            else Decision(Nothing, NoPermission);
            && Decide(state, user, req) == decision && Step(state, actor, req) == Commit(state, decision.write)
            && (decision.write == Nothing ==> Step(state, actor, req) == state)
  {
    hide SubjectOf, Can, DecideCreateRole;
  }

  /**
   * A copy has the source's access under the asked name, or under the first free one of `name (copy)`,
   * `name (copy 2)`, ... when none is asked for.
   */
  lemma DuplicateRoleExactly(state: PanelState, actor: Id, req: Request) returns (name: Text)
    requires actor in state.accounts && req.DuplicateRole?
    ensures var user := SubjectOf(state.roles, state.accounts[actor]);
            var done, after := Decide(state, user, req).response == Done, Step(state, actor, req);
            if MayAsk(user, {Manage}) && req.role in state.roles then
              && CreatesRole(state, user, req.newRole, name, state.roles[req.role].access, done, after)
              && (if req.name.Some? && Trim(req.name.value) != [] then name == Trim(req.name.value)
                  else exists n :: n >= 1 && name == Candidate(state.roles[req.role].name, n)
                         && NameIsFree(state.roles, name, None)
                         && forall m :: 1 <= m < n ==>
                              !NameIsFree(state.roles, Candidate(state.roles[req.role].name, m), None))
            else !done && after == state
  {
    var user := SubjectOf(state.roles, state.accounts[actor]);
    CanExactly(user, Accounts, Manage);
    if req.role in state.roles {
      var source := state.roles[req.role];
      name := DuplicateName(state.roles, source.name, req.name);
      CreateDecision(state, user, req.newRole, name, source.access);
      NameOfCopy(state.roles, source.name, req.name);
    } else {
      name := [];
    }
    hide *;
    DuplicateStep(state, actor, user, req);
    Guarded(user);
  }

  lemma NameOfCopy(roles: map<Id, Role>, source: Text, asked: Option<Text>)
    ensures var name := DuplicateName(roles, source, asked);
            if asked.Some? && Trim(asked.value) != [] then name == Trim(asked.value)
            else exists n :: n >= 1 && name == Candidate(source, n) && NameIsFree(roles, name, None)
                   && forall m :: 1 <= m < n ==> !NameIsFree(roles, Candidate(source, m), None)
  {
    CopyIsFirstFree(roles, source);
    hide NameIsFree, Candidate, Trim, FirstFree;
  }

  lemma DuplicateStep(state: PanelState, actor: Id, user: Subject, req: Request)
    requires actor in state.accounts && req.DuplicateRole? && user == SubjectOf(state.roles, state.accounts[actor])
    ensures var decision :=
              if !Can(user, Accounts, Manage) then Decision(Nothing, NoPermission)
              else if req.role !in state.roles then Decision(Nothing, NotFound)
              else DecideCreateRole(state, user, req.newRole,
                                    DuplicateName(state.roles, state.roles[req.role].name, req.name),
                                    state.roles[req.role].access);
            && Decide(state, user, req) == decision && Step(state, actor, req) == Commit(state, decision.write)
            && (decision.write == Nothing ==> Step(state, actor, req) == state)
  {
    hide SubjectOf, Can, DecideCreateRole, DuplicateName;
  }

  lemma CopyIsFirstFree(roles: map<Id, Role>, source: Text)
    ensures var n := FirstFree(NamesOf(roles), source, 1);
            && n >= 1 && NameIsFree(roles, Candidate(source, n), None)
            && forall m :: 1 <= m < n ==> !NameIsFree(roles, Candidate(source, m), None)
  {
    var n := FirstFree(NamesOf(roles), source, 1);
    hide NameIsFree, NameTaken, Candidate, FirstFree;
    FreeMeansNotTaken(roles, Candidate(source, n));
    forall m | 1 <= m < n
      ensures !NameIsFree(roles, Candidate(source, m), None)
    {
      FreeMeansNotTaken(roles, Candidate(source, m));
    }
  }

  /** Updating a role: old and new access and all members within the actor's, a free name, built-in names kept. */
  lemma UpdateRoleExactly(state: PanelState, actor: Id, req: Request)
    requires actor in state.accounts && req.UpdateRole?
    ensures var user := SubjectOf(state.roles, state.accounts[actor]);
            var done, after := Decide(state, user, req).response == Done, Step(state, actor, req);
            if !MayAsk(user, {Manage}) || req.role !in state.roles then !done && after == state
            else
              var before := state.roles[req.role];
              var name := if req.name.Some? then Trim(req.name.value) else before.name;
              var access := RoleAccess(if req.roleGrants.Some? then req.roleGrants.value else before.access.grants,
                                       if req.roleExt.Some? then req.roleExt.value else before.access.ext);
              && (done <==>
                    && AccessIsHeld(user, before.access) && MembersWithin(state, user, req.role)
                    && (before.builtin ==> name == before.name)
                    && NameIsFree(state.roles, name, Some(req.role)) && AccessIsHeld(user, access))
              && (if !done then after == state
                  else exists stored :: IsRoleOf(name, before.builtin, access, stored)
                         && after == state.(roles := state.roles[req.role := stored]))
  {
    var user := SubjectOf(state.roles, state.accounts[actor]);
    Guarded(user);
    if req.role in state.roles {
      var next := NextRole(state.roles[req.role], req);
      ChangeNeeds(state, user, req.role);
      FreeForOthers(state.roles, next.name, req.role);
      UsedIsHeld(user, next.access);
      StoredRoleIsRole(next);
    }
    hide SubjectOf, Can, MayAsk, AccessIsHeld, MembersWithin, NameIsFree, TakenByOther, CanUseRole, MayChange,
         StoredRole, IsRoleOf, Trim;
  }

  /** Removing a role: not a built-in one, its access and members within the actor's; every account loses it. */
  lemma RemoveRoleExactly(state: PanelState, actor: Id, req: Request)
    requires actor in state.accounts && req.RemoveRole?
    ensures var user := SubjectOf(state.roles, state.accounts[actor]);
            var done, after := Decide(state, user, req).response == Done, Step(state, actor, req);
            && (done <==>
                  && MayAsk(user, {Manage}) && req.role in state.roles && !state.roles[req.role].builtin
                  && AccessIsHeld(user, state.roles[req.role].access) && MembersWithin(state, user, req.role))
            && (!done ==> after == state)
            && (done ==>
                  && after.servers == state.servers && after.roles == state.roles - {req.role}
                  && after.accounts.Keys == state.accounts.Keys
                  && forall id :: id in state.accounts ==>
                       && (forall role :: role in after.accounts[id].roles <==>
                             role in state.accounts[id].roles && role != req.role)
                       && after.accounts[id].(roles := []) == state.accounts[id].(roles := []))
  {
    var user := SubjectOf(state.roles, state.accounts[actor]);
    CanExactly(user, Accounts, Manage);
    if req.role in state.roles { ChangeNeeds(state, user, req.role); }
    hide SubjectOf, Can, AccessIsHeld, MembersWithin, MayChange;
  }

  // ----- refusals

  /** Every other answer names something that is really the case, and nothing was written. */
  lemma RefusalsAreTrue(state: PanelState, actor: Subject, req: Request)
    ensures var decision := Decide(state, actor, req);
            && (decision.response != Done ==> decision.write == Nothing)
            && (decision.response == NotFound ==>
                  if req.UpdateAccount? || req.DeleteAccount? then req.target !in state.accounts
                  else (req.UpdateRole? || req.RemoveRole? || req.DuplicateRole?) && req.role !in state.roles)
            && (decision.response == BuiltinRole ==>
                  (req.UpdateRole? || req.RemoveRole?) && req.role in state.roles && state.roles[req.role].builtin)
            && (decision.response == IdTaken ==>
                  if req.CreateAccount? then req.newId in state.accounts
                  else (req.CreateRole? || req.DuplicateRole?) && req.newRole in state.roles)
            && (decision.response == NameConflict ==> req.CreateRole? || req.UpdateRole? || req.DuplicateRole?)
            && (decision.response == UnknownRole ==> req.CreateAccount? || req.UpdateAccount?)
  {
    hide CanGrant, CanManageAccount, PlanOf, SubjectOf, CanUseRole, MayChange, Can, NameTaken, TakenByOther, AllKnown,
         Trim, DuplicateName;
  }
}
