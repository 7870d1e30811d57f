/** Account and role requests as atomic guarded steps on the stored accounts and roles. */
module PanelSteps {
  import opened JsText
  import opened AccessLevels
  import opened AccountPolicy
  import opened RoleNames

  datatype Account = Account(
    roles: seq<Id>, grants: AccessMap, ext: set<string>, restrict: ServersRestrict, isAdmin: bool)

  datatype Role = Role(name: Text, builtin: bool, access: RoleAccess)

  datatype PanelState = PanelState(accounts: map<Id, Account>, roles: map<Id, Role>, servers: set<Id>)

  /** An absent optional field of a request body is None. */
  datatype Request =
    | CreateAccount(newId: Id, givenRoles: seq<Id>, givenGrants: AccessMap, givenExt: set<string>,
                    givenServers: set<Id>)
    | UpdateAccount(target: Id, roles: Option<seq<Id>>, grants: Option<AccessMap>, ext: Option<set<string>>,
                    restrict: Option<ServersRestrict>, admin: Option<bool>)
    | DeleteAccount(target: Id)
    | CreateRole(newRole: Id, newName: Text, newAccess: RoleAccess)
    | UpdateRole(role: Id, name: Option<Text>, roleGrants: Option<AccessMap>, roleExt: Option<set<string>>)
    | RemoveRole(role: Id)
    | DuplicateRole(role: Id, newRole: Id, name: Option<Text>)

  datatype Response =
    | Done | NoPermission | NotFound | UnknownRole | Refused(reason: Reason) | NameConflict | BuiltinRole | IdTaken

  // ----- reading the store

  function RoleAccesses(roles: map<Id, Role>, ids: seq<Id>): seq<RoleAccess> {
    if ids == [] then []
    else RoleAccesses(roles, ids[..|ids| - 1]) + if ids[|ids| - 1] in roles then [roles[ids[|ids| - 1]].access] else []
  }

  /** The account with its effective access, as the users repository computes it on read. */
  function SubjectOf(roles: map<Id, Role>, account: Account): Subject {
    Subject(account.isAdmin, EffectiveAccess(RoleAccesses(roles, account.roles), account.grants, account.ext),
            account.restrict)
  }

  function Members(state: PanelState, role: Id): set<Subject> {
    set id | id in state.accounts && role in state.accounts[id].roles :: SubjectOf(state.roles, state.accounts[id])
  }

  function NamesOf(roles: map<Id, Role>): set<Text> {
    set id | id in roles :: roles[id].name
  }

  /** Another role has the name, regardless of case. */
  predicate TakenByOther(roles: map<Id, Role>, name: Text, self: Id) {
    exists id :: id in roles && id != self && Fold(roles[id].name) == Fold(name)
  }

  // ----- writing the store

  function Unique(items: seq<Id>): (r: seq<Id>)
    ensures forall x :: x in r <==> x in items
    ensures forall i, j :: 0 <= i < j < |r| ==> r[i] != r[j]
  {
    if items == [] then []
    else
      var before := Unique(items[..|items| - 1]);
      var last := items[|items| - 1];
      assert items == items[..|items| - 1] + [last];
      if last in before then before else before + [last]
  }

  function KnownRoles(roles: map<Id, Role>, ids: seq<Id>): (r: seq<Id>)
    ensures forall id :: id in r <==> id in ids && id in roles
  {
    if ids == [] then []
    else
      assert ids == ids[..|ids| - 1] + [ids[|ids| - 1]];
      KnownRoles(roles, ids[..|ids| - 1]) + if ids[|ids| - 1] in roles then [ids[|ids| - 1]] else []
  }

  function StoredGrants(grants: AccessMap): AccessMap {
    map area | area in grants && grants[area] in AreaLevels(area) :: grants[area]
  }

  /** Levels an area does not know, missing roles and missing servers are skipped. */
  function Stored(state: PanelState, account: Account): Account {
    account.(roles := KnownRoles(state.roles, Unique(account.roles)),
             grants := StoredGrants(account.grants),
             restrict := account.restrict.(allowed := account.restrict.allowed * state.servers))
  }

  function StoredRole(role: Role): Role {
    role.(access := role.access.(grants := StoredGrants(role.access.grants)))
  }

  function WithoutRole(ids: seq<Id>, role: Id): (r: seq<Id>)
    ensures forall id :: id in r <==> id in ids && id != role
  {
    if ids == [] then []
    else
      assert ids == ids[..|ids| - 1] + [ids[|ids| - 1]];
      WithoutRole(ids[..|ids| - 1], role) + if ids[|ids| - 1] == role then [] else [ids[|ids| - 1]]
  }

  /** What a request writes to the store. */
  datatype Write =
    | Nothing
    | PutAccount(id: Id, account: Account)
    | DropAccount(id: Id)
    | PutRole(id: Id, role: Role)
    | DropRole(id: Id)

  /** Deleting a role takes it off every account that has it. */
  function Commit(state: PanelState, write: Write): PanelState {
    match write
    case Nothing => state
    case PutAccount(id, account) => state.(accounts := state.accounts[id := Stored(state, account)])
    case DropAccount(id) => state.(accounts := state.accounts - {id})
    case PutRole(id, role) => state.(roles := state.roles[id := StoredRole(role)])
    case DropRole(role) =>
      state.(roles := state.roles - {role},
             accounts := map id | id in state.accounts ::
               state.accounts[id].(roles := WithoutRole(state.accounts[id].roles, role)))
  }

  // ----- the requests

  datatype Decision = Decision(write: Write, response: Response)

  function Reject(response: Response): Decision {
    Decision(Nothing, response)
  }

  /** `resolve`: an unknown id is a bad request. */
  predicate AllKnown(roles: map<Id, Role>, ids: seq<Id>) {
    forall id :: id in ids ==> id in roles
  }

  function PlanOf(roles: map<Id, Role>, account: Account): AccessPlan {
    AccessPlan(RoleAccesses(roles, Unique(account.roles)), account.grants, account.ext, account.restrict)
  }

  function DecideCreate(state: PanelState, actor: Subject, id: Id, account: Account): Decision {
    if !AllKnown(state.roles, account.roles) then Reject(UnknownRole)
    else
      var verdict := CanGrant(actor, PlanOf(state.roles, account));
      if verdict.Denied? then Reject(Refused(verdict.reason))
      else if id in state.accounts then Reject(IdTaken)
      else Decision(PutAccount(id, account), Done)
  }

  function NewAccount(req: Request): Account
    requires req.CreateAccount?
  {
    Account(req.givenRoles, req.givenGrants, req.givenExt,
            ServersRestrict(req.givenServers != {}, req.givenServers), false)
  }

  function Amended(actor: Subject, user: Account, req: Request): Account
    requires req.UpdateAccount?
  {
    Account(
      if req.roles.Some? then Unique(req.roles.value) else user.roles,
      if req.grants.Some? then req.grants.value else user.grants,
      if req.ext.Some? then req.ext.value else user.ext,
      if req.restrict.Some? then req.restrict.value else user.restrict,
      if req.admin.Some? && actor.isAdmin then req.admin.value else user.isAdmin)
  }

  function DecideUpdate(state: PanelState, actor: Subject, req: Request): Decision
    requires req.UpdateAccount?
  {
    if req.target !in state.accounts then Reject(NotFound)
    else
      var user := state.accounts[req.target];
      var manage := CanManageAccount(actor, SubjectOf(state.roles, user));
      if manage.Denied? then Reject(Refused(manage.reason))
      else
        var updated := Amended(actor, user, req);
        if !AllKnown(state.roles, updated.roles) then Reject(UnknownRole)
        else
          var grant := CanGrant(actor, PlanOf(state.roles, updated));
          if grant.Denied? then Reject(Refused(grant.reason))
          else Decision(PutAccount(req.target, updated), Done)
  }

  function DecideDelete(state: PanelState, actor: Subject, target: Id): Decision {
    if target !in state.accounts then Reject(NotFound)
    else
      var manage := CanManageAccount(actor, SubjectOf(state.roles, state.accounts[target]));
      if manage.Denied? then Reject(Refused(manage.reason)) else Decision(DropAccount(target), Done)
  }

  function DecideCreateRole(state: PanelState, actor: Subject, id: Id, name: Text, access: RoleAccess): Decision {
    if NameTaken(NamesOf(state.roles), Trim(name)) then Reject(NameConflict)
    else
      var verdict := CanUseRole(actor, access);
      if verdict.Denied? then Reject(Refused(verdict.reason))
      else if id in state.roles then Reject(IdTaken)
      else Decision(PutRole(id, Role(Trim(name), false, access)), Done)
  }

  function NextRole(before: Role, req: Request): Role
    requires req.UpdateRole?
  {
    Role(if req.name.Some? then Trim(req.name.value) else before.name,
         before.builtin,
         RoleAccess(if req.roleGrants.Some? then req.roleGrants.value else before.access.grants,
                    if req.roleExt.Some? then req.roleExt.value else before.access.ext))
  }

  /** Whether the actor may touch the role as it is: its access and its members are within reach. */
  function MayChange(state: PanelState, actor: Subject, role: Id): Verdict
    requires role in state.roles
  {
    var use := CanUseRole(actor, state.roles[role].access);
    if use.Denied? then use else CanChangeRoleMembers(actor, Members(state, role))
  }

  function DecideUpdateRole(state: PanelState, actor: Subject, req: Request): Decision
    requires req.UpdateRole?
  {
    if req.role !in state.roles then Reject(NotFound)
    else
      var before := state.roles[req.role];
      var next := NextRole(before, req);
      var change, use := MayChange(state, actor, req.role), CanUseRole(actor, next.access);
      if change.Denied? then Reject(Refused(change.reason))
      else if before.builtin && next.name != before.name then Reject(BuiltinRole)
      else if TakenByOther(state.roles, next.name, req.role) then Reject(NameConflict)
      else if use.Denied? then Reject(Refused(use.reason))
      else Decision(PutRole(req.role, next), Done)
  }

  function DecideRemoveRole(state: PanelState, actor: Subject, role: Id): Decision {
    if role !in state.roles then Reject(NotFound)
    else if state.roles[role].builtin then Reject(BuiltinRole)
    else
      var change := MayChange(state, actor, role);
      if change.Denied? then Reject(Refused(change.reason)) else Decision(DropRole(role), Done)
  }

  /** The name a duplicate asks for: the given one unless blank, else the first free copy name. */
  function DuplicateName(roles: map<Id, Role>, source: Text, name: Option<Text>): Text {
    if name.Some? && Trim(name.value) != [] then Trim(name.value)
    else Candidate(source, FirstFree(NamesOf(roles), source, 1))
  }

  function DecideDuplicate(state: PanelState, actor: Subject, role: Id, newRole: Id, name: Option<Text>): Decision {
    if role !in state.roles then Reject(NotFound)
    else
      var source := state.roles[role];
      DecideCreateRole(state, actor, newRole, DuplicateName(state.roles, source.name, name), source.access)
  }

  /** The level in the accounts area a request needs before it is looked at. */
  function NeededLevel(req: Request): Level {
    if req.CreateAccount? || req.UpdateAccount? || req.DeleteAccount? then Write else Manage
  }

  function Decide(state: PanelState, actor: Subject, req: Request): Decision {
    if !Can(actor, Accounts, NeededLevel(req)) then Reject(NoPermission)
    else
      match req
      case CreateAccount(id, _, _, _, _) => DecideCreate(state, actor, id, NewAccount(req))
      case UpdateAccount(_, _, _, _, _, _) => DecideUpdate(state, actor, req)
      case DeleteAccount(target) => DecideDelete(state, actor, target)
      case CreateRole(id, name, access) => DecideCreateRole(state, actor, id, name, access)
      case UpdateRole(_, _, _, _) => DecideUpdateRole(state, actor, req)
      case RemoveRole(role) => DecideRemoveRole(state, actor, role)
      case DuplicateRole(role, id, name) => DecideDuplicate(state, actor, role, id, name)
  }

  /** A request by an account; access is read at the moment of the request. */
  function Step(state: PanelState, actor: Id, req: Request): PanelState
    requires actor in state.accounts
  {
    Commit(state, Decide(state, SubjectOf(state.roles, state.accounts[actor]), req).write)
  }

  // ----- what every decided write is like

  /** The write is covered by the actor's verdicts and keeps names apart. */
  predicate Permitted(state: PanelState, actor: Subject, write: Write) {
    match write
    case Nothing => true
    case PutAccount(id, account) =>
      && AllKnown(state.roles, account.roles)
      && CanGrant(actor, PlanOf(state.roles, account)) == Allowed
      && (id in state.accounts ==> CanManageAccount(actor, SubjectOf(state.roles, state.accounts[id])) == Allowed)
      && (account.isAdmin ==> actor.isAdmin || (id in state.accounts && state.accounts[id].isAdmin))
    case DropAccount(id) =>
      id in state.accounts && CanManageAccount(actor, SubjectOf(state.roles, state.accounts[id])) == Allowed
    case PutRole(id, role) =>
      && IsTrim(role.name)
      && !TakenByOther(state.roles, role.name, id)
      && CanUseRole(actor, role.access) == Allowed
      && (id in state.roles ==> MayChange(state, actor, id) == Allowed)
    case DropRole(id) =>
      id in state.roles && !state.roles[id].builtin && MayChange(state, actor, id) == Allowed
  }

  /** Foreign keys: accounts only have roles that exist. */
  predicate RolesExist(state: PanelState) {
    forall id, role :: id in state.accounts && role in state.accounts[id].roles ==> role in state.roles
  }

  /** No two roles have the same name regardless of case, and stored names are trimmed. */
  predicate NamesUnique(state: PanelState) {
    && (forall a, b :: a in state.roles && b in state.roles && a != b ==>
          Fold(state.roles[a].name) != Fold(state.roles[b].name))
    && (forall a :: a in state.roles ==> IsTrim(state.roles[a].name))
  }

  predicate Valid(state: PanelState) {
    RolesExist(state) && NamesUnique(state)
  }

  lemma CreatedRolePermitted(state: PanelState, actor: Subject, id: Id, name: Text, access: RoleAccess)
    ensures Permitted(state, actor, DecideCreateRole(state, actor, id, name, access).write)
  {
    hide Trim, IsTrim, NameTaken, NamesOf, Fold, CanUseRole, NothingAbove;
    TrimGivesTrim(name);
    if !NameTaken(NamesOf(state.roles), Trim(name)) {
      FreeForAll(state.roles, Trim(name));
    }
  }

  lemma FreeForAll(roles: map<Id, Role>, name: Text)
    requires !NameTaken(NamesOf(roles), name)
    ensures forall other | other in roles :: Fold(roles[other].name) != Fold(name)
  {
    forall other | other in roles
      ensures Fold(roles[other].name) != Fold(name)
    {
      assert roles[other].name in NamesOf(roles);
    }
  }

  lemma NextRoleTrim(before: Role, req: Request)
    requires IsTrim(before.name) && req.UpdateRole?
    ensures IsTrim(NextRole(before, req).name)
  {
    if req.name.Some? { TrimGivesTrim(req.name.value); }
  }

  lemma UpdatedRolePermitted(state: PanelState, actor: Subject, req: Request)
    requires NamesUnique(state) && req.UpdateRole?
    ensures Permitted(state, actor, DecideUpdateRole(state, actor, req).write)
  {
    var decision := DecideUpdateRole(state, actor, req);
    if req.role in state.roles && decision.response == Done {
      var next := NextRole(state.roles[req.role], req);
      NextRoleTrim(state.roles[req.role], req);
      assert decision.write == PutRole(req.role, next);
    } else {
      assert decision.write == Nothing;
    }
  }

  /** Nothing is written that the verdicts do not cover. */
  lemma DecisionsArePermitted(state: PanelState, actor: Subject, req: Request)
    requires NamesUnique(state)
    ensures Permitted(state, actor, Decide(state, actor, req).write)
  {
    hide Permitted, NamesUnique, DecideCreate, DecideUpdate, DecideDelete, DecideCreateRole, DecideUpdateRole,
         DecideRemoveRole, DecideDuplicate, Can;
    NothingIsPermitted(state, actor);
    match req
    case CreateAccount(id, _, _, _, _) => CreatedAccountPermitted(state, actor, id, NewAccount(req));
    case UpdateAccount(_, _, _, _, _, _) => UpdatedAccountPermitted(state, actor, req);
    case DeleteAccount(target) => DeletedAccountPermitted(state, actor, target);
    case CreateRole(id, name, access) => CreatedRolePermitted(state, actor, id, name, access);
    case UpdateRole(_, _, _, _) => UpdatedRolePermitted(state, actor, req);
    case RemoveRole(role) => RemovedRolePermitted(state, actor, role);
    case DuplicateRole(role, id, name) => DuplicatedRolePermitted(state, actor, role, id, name);
  }

  lemma NothingIsPermitted(state: PanelState, actor: Subject)
    ensures Permitted(state, actor, Nothing)
  {
  }

  lemma CreatedAccountPermitted(state: PanelState, actor: Subject, id: Id, account: Account)
    requires !account.isAdmin
    ensures Permitted(state, actor, DecideCreate(state, actor, id, account).write)
  {
    hide CanGrant, PlanOf, AllKnown;
  }

  lemma UpdatedAccountPermitted(state: PanelState, actor: Subject, req: Request)
    requires req.UpdateAccount?
    ensures Permitted(state, actor, DecideUpdate(state, actor, req).write)
  {
    hide CanGrant, CanManageAccount, PlanOf, AllKnown, SubjectOf;
  }

  lemma DeletedAccountPermitted(state: PanelState, actor: Subject, target: Id)
    ensures Permitted(state, actor, DecideDelete(state, actor, target).write)
  {
    hide CanManageAccount, SubjectOf;
  }

  lemma RemovedRolePermitted(state: PanelState, actor: Subject, role: Id)
    ensures Permitted(state, actor, DecideRemoveRole(state, actor, role).write)
  {
    hide MayChange;
  }

  lemma DuplicatedRolePermitted(state: PanelState, actor: Subject, role: Id, id: Id, name: Option<Text>)
    ensures Permitted(state, actor, DecideDuplicate(state, actor, role, id, name).write)
  {
    hide Permitted, DecideCreateRole, DuplicateName;
    if role in state.roles {
      var source := state.roles[role];
      CreatedRolePermitted(state, actor, id, DuplicateName(state.roles, source.name, name), source.access);
    } else {
      NothingIsPermitted(state, actor);
    }
  }

  lemma CommitKeepsValid(state: PanelState, actor: Subject, write: Write)
    requires Valid(state) && Permitted(state, actor, write)
    ensures Valid(Commit(state, write))
  {
    hide CanGrant, CanManageAccount, CanUseRole, MayChange, Fold, IsTrim;
    match write
    case PutRole(id, role) => PutKeepsNames(state, id, role);
    case _ =>
  }

  lemma PutKeepsNames(state: PanelState, id: Id, role: Role)
    requires NamesUnique(state) && IsTrim(role.name) && !TakenByOther(state.roles, role.name, id)
    ensures NamesUnique(Commit(state, PutRole(id, role)))
  {
    hide Fold, IsTrim;
  }

  /** Every request of every account, admins included, keeps role names unique and references intact. */
  lemma StepKeepsValid(state: PanelState, actor: Id, req: Request)
    requires Valid(state) && actor in state.accounts
    ensures Valid(Step(state, actor, req))
  {
    var subject := SubjectOf(state.roles, state.accounts[actor]);
    DecisionsArePermitted(state, subject, req);
    CommitKeepsValid(state, subject, Decide(state, subject, req).write);
  }

  /**
   * Duplicating without a name never fails on the name unless the source has the empty name and a
   * role is called "(copy)".
   */
  lemma DuplicateGetsFreeName(state: PanelState, role: Id)
    requires Valid(state) && role in state.roles
    ensures NameTaken(NamesOf(state.roles), Trim(DuplicateName(state.roles, state.roles[role].name, None))) <==>
            state.roles[role].name == [] && NameTaken(NamesOf(state.roles), BARE_COPY)
  {
    var names, source := NamesOf(state.roles), state.roles[role].name;
    var n := FirstFree(names, source, 1);
    assert forall other :: other in names ==> IsTrim(other);
    assert DuplicateName(state.roles, source, None) == Candidate(source, n);
    CopyNamePasses(names, source, n);
  }
}
