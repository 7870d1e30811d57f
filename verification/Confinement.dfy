/** Non-admins cannot create access: what an account gains in a step, the actor of that step had. */
module Confinement {
  import opened JsText
  import opened AccessLevels
  import opened AccountPolicy
  import opened PanelSteps

  /** One unit of access: a level in an area, the same on a server, or an extension key. */
  datatype Power =
    | InPanel(area: Area, level: Level)
    | OnServer(area: Area, level: Level, server: Id)
    | Extension(key: string)

  predicate Has(user: Subject, power: Power) {
    match power
    case InPanel(area, level) => Can(user, area, level)
    case OnServer(area, level, server) => CanOnServer(user, area, level, server)
    case Extension(key) => HasExtPermission(user, key)
  }

  predicate Holds(state: PanelState, id: Id, power: Power) {
    id in state.accounts && Has(SubjectOf(state.roles, state.accounts[id]), power)
  }

  // ----- where an account's effective access comes from

  predicate RoleGives(roles: map<Id, Role>, ids: seq<Id>, area: Area, level: Level) {
    exists id :: id in ids && id in roles && Covers(roles[id].access.grants, area, level)
  }

  predicate RoleGivesKey(roles: map<Id, Role>, ids: seq<Id>, key: string) {
    exists id :: id in ids && id in roles && key in roles[id].access.ext
  }

  lemma {:induction false} AccessesOfRoles(roles: map<Id, Role>, ids: seq<Id>, access: RoleAccess)
    ensures access in RoleAccesses(roles, ids) <==> exists id :: id in ids && id in roles && roles[id].access == access
  {
    if ids != [] {
      var init, last := ids[..|ids| - 1], ids[|ids| - 1];
      assert ids == init + [last];
      AccessesOfRoles(roles, init, access);
    }
  }

  lemma SubjectLevels(roles: map<Id, Role>, account: Account, area: Area, level: Level)
    ensures Covers(SubjectOf(roles, account).access.levels, area, level) <==>
            Covers(account.grants, area, level) || RoleGives(roles, account.roles, area, level)
  {
    EffectiveLevel(RoleAccesses(roles, account.roles), account.grants, account.ext, area, level);
    AccessesGive(roles, account.roles, area, level);
  }

  lemma AccessesGive(roles: map<Id, Role>, ids: seq<Id>, area: Area, level: Level)
    ensures RoleGives(roles, ids, area, level) <==> SomeRoleCovers(RoleAccesses(roles, ids), area, level)
  {
    if SomeRoleCovers(RoleAccesses(roles, ids), area, level) {
      var i :| 0 <= i < |RoleAccesses(roles, ids)| && Covers(RoleAccesses(roles, ids)[i].grants, area, level);
      RoleOfAccess(roles, ids, RoleAccesses(roles, ids)[i]);
    } else if RoleGives(roles, ids, area, level) {
      var id :| id in ids && id in roles && Covers(roles[id].access.grants, area, level);
      AccessesOfRoles(roles, ids, roles[id].access);
      SomeCovers(RoleAccesses(roles, ids), roles[id].access, area, level);
    }
  }

  lemma RoleOfAccess(roles: map<Id, Role>, ids: seq<Id>, access: RoleAccess)
    requires access in RoleAccesses(roles, ids)
    ensures exists id :: id in ids && id in roles && roles[id].access == access
  {
    AccessesOfRoles(roles, ids, access);
  }

  lemma SomeCovers(accesses: seq<RoleAccess>, access: RoleAccess, area: Area, level: Level)
    requires access in accesses && Covers(access.grants, area, level)
    ensures SomeRoleCovers(accesses, area, level)
  {
  }

  lemma SubjectKeys(roles: map<Id, Role>, account: Account, key: string)
    ensures key in SubjectOf(roles, account).access.ext <==>
            key in account.ext || RoleGivesKey(roles, account.roles, key)
  {
    var accesses := RoleAccesses(roles, account.roles);
    if i :| 0 <= i < |accesses| && key in accesses[i].ext {
      AccessesOfRoles(roles, account.roles, accesses[i]);
    }
    if id :| id in account.roles && id in roles && key in roles[id].access.ext {
      AccessesOfRoles(roles, account.roles, roles[id].access);
    }
  }

  // ----- storing an account whose plan was granted

  /** What is stored of a granted plan is within the actor's own access. */
  lemma StoredPlanIsHeld(state: PanelState, actor: Subject, account: Account, power: Power)
    requires AllKnown(state.roles, account.roles)
    requires CanGrant(actor, PlanOf(state.roles, account)) == Allowed
    requires !account.isAdmin && Has(SubjectOf(state.roles, Stored(state, account)), power)
    ensures Has(actor, power)
  {
    var plan, stored := PlanOf(state.roles, account), Stored(state, account);
    GrantedPlanIsHeld(actor, plan);
    var planned := account.(roles := Unique(account.roles));
    assert SubjectOf(state.roles, planned).access == EffectiveAccess(plan.roles, plan.grants, plan.ext);
    match power
    case Extension(key) =>
      SubjectKeys(state.roles, stored, key);
      SubjectKeys(state.roles, planned, key);
    case InPanel(area, level) => StoredLevelIsPlanned(state, account, area, level);
    case OnServer(area, level, server) =>
      StoredLevelIsPlanned(state, account, area, level);
      assert ReachesServer(Subject(false, UserAccess(map[], {}), account.restrict), server);
  }

  lemma StoredLevelIsPlanned(state: PanelState, account: Account, area: Area, level: Level)
    requires Covers(SubjectOf(state.roles, Stored(state, account)).access.levels, area, level)
    ensures Covers(SubjectOf(state.roles, account.(roles := Unique(account.roles))).access.levels, area, level)
  {
    hide SubjectOf, RoleAccesses, KnownRoles, Unique;
    SubjectLevels(state.roles, Stored(state, account), area, level);
    SubjectLevels(state.roles, account.(roles := Unique(account.roles)), area, level);
  }

  // ----- changing a role

  lemma RoleUpdateIsHeld(state: PanelState, actor: Subject, role: Id, next: Role, id: Id, power: Power)
    requires role in state.roles
    requires CanUseRole(actor, next.access) == Allowed
    requires CanChangeRoleMembers(actor, Members(state, role)) == Allowed
    requires Holds(Commit(state, PutRole(role, next)), id, power) && !Holds(state, id, power)
    ensures Has(actor, power)
  {
    hide NothingAbove, RoleAccesses, EffectiveAccess;
    var account := state.accounts[id];
    var after := Commit(state, PutRole(role, next)).roles;
    NothingAboveMeansHeld(actor, UserAccess(next.access.grants, next.access.ext));
    match power
    case Extension(key) =>
      SubjectKeys(state.roles, account, key);
      SubjectKeys(after, account, key);
    case InPanel(area, level) => RoleUpdateLevel(state, actor, role, next, account, area, level);
    case OnServer(area, level, server) =>
      RoleUpdateLevel(state, actor, role, next, account, area, level);
      var member := SubjectOf(state.roles, account);
      assert member in Members(state, role);
      ReachableExactly(actor, member);
  }

  /** A level gained through a role update is in the new role, and its holder is a member. */
  lemma RoleUpdateLevel(state: PanelState, actor: Subject, role: Id, next: Role, account: Account,
                        area: Area, level: Level)
    requires role in state.roles
    requires CanUseRole(actor, next.access) == Allowed
    requires Can(SubjectOf(Commit(state, PutRole(role, next)).roles, account), area, level)
    requires !Can(SubjectOf(state.roles, account), area, level)
    ensures Can(actor, area, level) && role in account.roles
  {
    var after := Commit(state, PutRole(role, next)).roles;
    SubjectLevels(state.roles, account, area, level);
    SubjectLevels(after, account, area, level);
    var id :| id in account.roles && id in after && Covers(after[id].access.grants, area, level);
    assert id == role;
    NothingAboveMeansHeld(actor, UserAccess(next.access.grants, next.access.ext));
    assert Can(actor, area, next.access.grants[area]);
  }

  /** A new role has no members yet, a removed one only takes access away. */
  lemma NewRoleGivesNothing(state: PanelState, role: Id, added: Role, id: Id, power: Power)
    requires RolesExist(state) && role !in state.roles
    ensures Holds(Commit(state, PutRole(role, added)), id, power) <==> Holds(state, id, power)
  {
    if id in state.accounts {
      var ids := state.accounts[id].roles;
      SameAccesses(state.roles, Commit(state, PutRole(role, added)).roles, ids);
    }
  }

  lemma {:induction false} SameAccesses(before: map<Id, Role>, after: map<Id, Role>, ids: seq<Id>)
    requires forall id :: id in ids ==> id in before && id in after && before[id] == after[id]
    ensures RoleAccesses(before, ids) == RoleAccesses(after, ids)
  {
    if ids != [] {
      assert ids[|ids| - 1] in ids;
      SameAccesses(before, after, ids[..|ids| - 1]);
    }
  }

  lemma DroppedRoleGivesNothing(state: PanelState, role: Id, id: Id, power: Power)
    requires Holds(Commit(state, DropRole(role)), id, power)
    ensures Holds(state, id, power)
  {
    var before, after := state.accounts[id], Commit(state, DropRole(role)).accounts[id];
    var rolesAfter := Commit(state, DropRole(role)).roles;
    match power
    case Extension(key) =>
      SubjectKeys(state.roles, before, key);
      SubjectKeys(rolesAfter, after, key);
    case InPanel(area, level) =>
      SubjectLevels(state.roles, before, area, level);
      SubjectLevels(rolesAfter, after, area, level);
    case OnServer(area, level, server) =>
      SubjectLevels(state.roles, before, area, level);
      SubjectLevels(rolesAfter, after, area, level);
  }

  // ----- taking an account over

  /** Whoever may manage an account, and so could take it over, has every power it has already. */
  lemma TakeoverGivesNothing(actor: Subject, roles: map<Id, Role>, account: Account, power: Power)
    requires CanManageAccount(actor, SubjectOf(roles, account)) == Allowed
    requires Has(SubjectOf(roles, account), power)
    ensures Has(actor, power)
  {
    CanManageExactly(actor, SubjectOf(roles, account));
  }

  // ----- one step

  /** A permitted write of a non-admin gives accounts only what the actor has. */
  lemma WriteConfined(state: PanelState, actor: Subject, write: Write, id: Id, power: Power)
    requires RolesExist(state) && !actor.isAdmin && Permitted(state, actor, write)
    requires Holds(Commit(state, write), id, power) && !Holds(state, id, power)
    ensures Has(actor, power)
  {
    match write
    case PutAccount(target, account) =>
      assert id == target;
      StoredPlanIsHeld(state, actor, account, power);
    case PutRole(role, next) =>
      if role in state.roles {
        RoleUpdateIsHeld(state, actor, role, next, id, power);
      } else {
        NewRoleGivesNothing(state, role, next, id, power);
      }
    case DropRole(role) =>
      DroppedRoleGivesNothing(state, role, id, power);
    case _ =>
  }

  /** Whatever an account gains in a non-admin's step, that actor already held. */
  lemma StepConfined(state: PanelState, actor: Id, req: Request, id: Id, power: Power)
    requires Valid(state) && actor in state.accounts && !state.accounts[actor].isAdmin
    requires Holds(Step(state, actor, req), id, power) && !Holds(state, id, power)
    ensures Holds(state, actor, power)
  {
    var subject := SubjectOf(state.roles, state.accounts[actor]);
    DecisionsArePermitted(state, subject, req);
    WriteConfined(state, subject, Decide(state, subject, req).write, id, power);
  }

  /** A non-admin's write neither makes an admin nor takes an admin away. */
  lemma WriteKeepsAdmins(state: PanelState, actor: Subject, write: Write, id: Id)
    requires !actor.isAdmin && Permitted(state, actor, write)
    ensures id in state.accounts && state.accounts[id].isAdmin <==>
            id in Commit(state, write).accounts && Commit(state, write).accounts[id].isAdmin
  {
  }

  lemma StepKeepsAdmins(state: PanelState, actor: Id, req: Request, id: Id)
    requires Valid(state) && actor in state.accounts && !state.accounts[actor].isAdmin
    ensures id in state.accounts && state.accounts[id].isAdmin <==>
            id in Step(state, actor, req).accounts && Step(state, actor, req).accounts[id].isAdmin
  {
    var subject := SubjectOf(state.roles, state.accounts[actor]);
    DecisionsArePermitted(state, subject, req);
    WriteKeepsAdmins(state, subject, Decide(state, subject, req).write, id);
  }

  // ----- whole runs

  datatype Action = Action(actor: Id, req: Request)

  function RunState(state: PanelState, actions: seq<Action>): PanelState
  {
    if actions == [] then state
    else
      var before := RunState(state, actions[..|actions| - 1]);
      var last := actions[|actions| - 1];
      if last.actor in before.accounts then Step(before, last.actor, last.req) else before
  }

  /** Every action comes from an account that exists and is no admin at that moment. */
  predicate ByNonAdmins(state: PanelState, actions: seq<Action>) {
    actions == [] ||
    (var before, last := RunState(state, actions[..|actions| - 1]), actions[|actions| - 1];
     && ByNonAdmins(state, actions[..|actions| - 1])
     && last.actor in before.accounts && !before.accounts[last.actor].isAdmin)
  }

  ghost predicate SomeNonAdminHolds(state: PanelState, power: Power) {
    exists id :: id in state.accounts && !state.accounts[id].isAdmin && Holds(state, id, power)
  }

  /** Role names stay unique and references intact in every run, by admins and non-admins alike. */
  lemma {:induction false} RunKeepsValid(state: PanelState, actions: seq<Action>)
    requires Valid(state)
    ensures Valid(RunState(state, actions))
  {
    if actions != [] {
      var before, last := RunState(state, actions[..|actions| - 1]), actions[|actions| - 1];
      RunKeepsValid(state, actions[..|actions| - 1]);
      if last.actor in before.accounts {
        StepKeepsValid(before, last.actor, last.req);
      }
    }
  }

  /** What all non-admins together can do never grows in a run of theirs. */
  lemma {:induction false} RunConfined(state: PanelState, actions: seq<Action>, power: Power)
    requires Valid(state) && ByNonAdmins(state, actions)
    requires SomeNonAdminHolds(RunState(state, actions), power)
    ensures SomeNonAdminHolds(state, power)
  {
    if actions != [] {
      var before, last := RunState(state, actions[..|actions| - 1]), actions[|actions| - 1];
      var after := RunState(state, actions);
      var id :| id in after.accounts && !after.accounts[id].isAdmin && Holds(after, id, power);
      RunKeepsValid(state, actions[..|actions| - 1]);
      StepKeepsAdmins(before, last.actor, last.req, id);
      if !Holds(before, id, power) {
        StepConfined(before, last.actor, last.req, id, power);
      }
      RunConfined(state, actions[..|actions| - 1], power);
    }
  }

  /** A run of non-admins leaves the set of admins as it was. */
  lemma {:induction false} RunKeepsAdmins(state: PanelState, actions: seq<Action>, id: Id)
    requires Valid(state) && ByNonAdmins(state, actions)
    ensures id in state.accounts && state.accounts[id].isAdmin <==>
            id in RunState(state, actions).accounts && RunState(state, actions).accounts[id].isAdmin
  {
    if actions != [] {
      var before, last := RunState(state, actions[..|actions| - 1]), actions[|actions| - 1];
      RunKeepsValid(state, actions[..|actions| - 1]);
      StepKeepsAdmins(before, last.actor, last.req, id);
      RunKeepsAdmins(state, actions[..|actions| - 1], id);
    }
  }
}
