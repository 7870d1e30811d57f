/** The store behind the account and role requests; each method is one request, check by check. */
module PanelStore {
  import opened JsText
  import opened AccessLevels
  import opened AccountPolicy
  import opened RoleNames
  import opened PanelSteps
  import opened Confinement

  class Panel {
    var accounts: map<Id, Account>
    var roles: map<Id, Role>
    const servers: set<Id>

    function State(): PanelState
      reads this
    {
      PanelState(accounts, roles, servers)
    }

    constructor (accounts: map<Id, Account>, roles: map<Id, Role>, servers: set<Id>)
      ensures State() == PanelState(accounts, roles, servers)
    {
      this.accounts, this.roles, this.servers := accounts, roles, servers;
    }

    method AddAccount(actor: Subject, id: Id, body: Request) returns (response: Response)
      requires body.CreateAccount?
      modifies this
      ensures var decision := DecideCreate(old(State()), actor, id, NewAccount(body));
              State() == Commit(old(State()), decision.write) && response == decision.response
    {
      var account := Account(body.givenRoles, body.givenGrants, body.givenExt,
                             ServersRestrict(body.givenServers != {}, body.givenServers), false);
      if !AllKnown(roles, account.roles) { return UnknownRole; }
      var verdict := CanGrant(actor, PlanOf(roles, account));
      if verdict.Denied? { return Refused(verdict.reason); }
      if id in accounts { return IdTaken; }
      accounts := accounts[id := Stored(State(), account)];
      return Done;
    }

    method UpdateAccount(actor: Subject, dto: Request) returns (response: Response)
      requires dto.UpdateAccount?
      modifies this
      ensures var decision := DecideUpdate(old(State()), actor, dto);
              State() == Commit(old(State()), decision.write) && response == decision.response
    {
      if dto.target !in accounts { return NotFound; }
      var user := accounts[dto.target];
      var manage := CanManageAccount(actor, SubjectOf(roles, user));
      if manage.Denied? { return Refused(manage.reason); }
      var updated := Amend(actor, user, dto);
      if !AllKnown(roles, updated.roles) { return UnknownRole; }
      var grant := CanGrant(actor, PlanOf(roles, updated));
      if grant.Denied? { return Refused(grant.reason); }
      assert DecideUpdate(State(), actor, dto) == Decision(PutAccount(dto.target, updated), Done);
      accounts := accounts[dto.target := Stored(State(), updated)];
      return Done;
    }

    /** The account with the fields of the request assigned one by one. */
    static method Amend(actor: Subject, user: Account, dto: Request) returns (updated: Account)
      requires dto.UpdateAccount?
      ensures updated == Amended(actor, user, dto)
    {
      updated := user;
      if dto.roles.Some? { updated := updated.(roles := Unique(dto.roles.value)); }
      if dto.grants.Some? { updated := updated.(grants := dto.grants.value); }
      if dto.ext.Some? { updated := updated.(ext := dto.ext.value); }
      if dto.restrict.Some? { updated := updated.(restrict := dto.restrict.value); }
      // Only admins may grant or revoke admin rights
      if dto.admin.Some? && actor.isAdmin { updated := updated.(isAdmin := dto.admin.value); }
    }

    method DeleteAccount(actor: Subject, target: Id) returns (response: Response)
      modifies this
      ensures var decision := DecideDelete(old(State()), actor, target);
              State() == Commit(old(State()), decision.write) && response == decision.response
    {
      if target !in accounts { return NotFound; }
      var manage := CanManageAccount(actor, SubjectOf(roles, accounts[target]));
      if manage.Denied? { return Refused(manage.reason); }
      accounts := accounts - {target};
      return Done;
    }

    method WriteRole(id: Id, role: Role)
      modifies this`roles
      ensures State() == Commit(old(State()), PutRole(id, role))
    {
      roles := roles[id := StoredRole(role)];
    }

    method CreateRole(actor: Subject, id: Id, name: Text, access: RoleAccess) returns (response: Response)
      modifies this
      ensures var decision := DecideCreateRole(old(State()), actor, id, name, access);
              State() == Commit(old(State()), decision.write) && response == decision.response
    {
      ghost var was := State();
      var role := Role(Trim(name), false, access);
      if NameTaken(NamesOf(roles), role.name) { return NameConflict; }
      var verdict := CanUseRole(actor, role.access);
      if verdict.Denied? { return Refused(verdict.reason); }
      if id in roles { return IdTaken; }
      assert DecideCreateRole(was, actor, id, name, access) == Decision(PutRole(id, role), Done);
      WriteRole(id, role);
      return Done;
    }

    method UpdateRole(actor: Subject, input: Request) returns (response: Response)
      requires input.UpdateRole?
      modifies this
      ensures var decision := DecideUpdateRole(old(State()), actor, input);
              State() == Commit(old(State()), decision.write) && response == decision.response
    {
      if input.role !in roles { return NotFound; }
      ghost var was := State();
      var before := roles[input.role];
      var change := CheckChange(actor, input.role);
      if change.Denied? { return Refused(change.reason); }
      var next := Revise(before, input);
      if before.builtin && next.name != before.name { return BuiltinRole; }
      if TakenByOther(roles, next.name, input.role) { return NameConflict; }
      var use := CanUseRole(actor, next.access);
      if use.Denied? { return Refused(use.reason); }
      assert DecideUpdateRole(was, actor, input) == Decision(PutRole(input.role, next), Done);
      WriteRole(input.role, next);
      return Done;
    }

    static method Revise(before: Role, input: Request) returns (next: Role)
      requires input.UpdateRole?
      ensures next == NextRole(before, input)
    {
      next := before;
      if input.name.Some? { next := next.(name := Trim(input.name.value)); }
      if input.roleGrants.Some? { next := next.(access := next.access.(grants := input.roleGrants.value)); }
      if input.roleExt.Some? { next := next.(access := next.access.(ext := input.roleExt.value)); }
    }

    method CheckChange(actor: Subject, id: Id) returns (verdict: Verdict)
      requires id in roles
      ensures verdict == MayChange(State(), actor, id)
    {
      verdict := CanUseRole(actor, roles[id].access);
      if verdict.Allowed? {
        verdict := CanChangeRoleMembers(actor, Members(State(), id));
      }
    }

    method RemoveRole(actor: Subject, id: Id) returns (response: Response)
      modifies this
      ensures var decision := DecideRemoveRole(old(State()), actor, id);
              State() == Commit(old(State()), decision.write) && response == decision.response
    {
      if id !in roles { return NotFound; }
      if roles[id].builtin { return BuiltinRole; }
      var change := CheckChange(actor, id);
      if change.Denied? { return Refused(change.reason); }
      accounts := map other | other in accounts :: accounts[other].(roles := WithoutRole(accounts[other].roles, id));
      roles := roles - {id};
      return Done;
    }

    method Duplicate(actor: Subject, id: Id, newId: Id, name: Option<Text>) returns (response: Response)
      modifies this
      ensures var decision := DecideDuplicate(old(State()), actor, id, newId, name);
              State() == Commit(old(State()), decision.write) && response == decision.response
    {
      if id !in roles { return NotFound; }
      var source := roles[id];
      var asked := if name.Some? then Trim(name.value) else [];
      if asked == [] {
        asked := CopyName(NamesOf(roles), source.name);
      }
      response := CreateRole(actor, newId, asked, source.access);
    }

    /** The account requests, past the access guard. */
    method HandleAccount(actor: Subject, req: Request) returns (response: Response)
      requires req.CreateAccount? || req.UpdateAccount? || req.DeleteAccount?
      requires Can(actor, Accounts, NeededLevel(req))
      modifies this
      ensures var decision := Decide(old(State()), actor, req);
              State() == Commit(old(State()), decision.write) && response == decision.response
    {
      match req
      case CreateAccount(id, _, _, _, _) => response := AddAccount(actor, id, req);
      case UpdateAccount(_, _, _, _, _, _) => response := UpdateAccount(actor, req);
      case DeleteAccount(target) => response := DeleteAccount(actor, target);
    }

    /** The role requests, past the access guard. */
    method HandleRole(actor: Subject, req: Request) returns (response: Response)
      requires req.CreateRole? || req.UpdateRole? || req.RemoveRole? || req.DuplicateRole?
      requires Can(actor, Accounts, NeededLevel(req))
      modifies this
      ensures var decision := Decide(old(State()), actor, req);
              State() == Commit(old(State()), decision.write) && response == decision.response
    {
      match req
      case CreateRole(id, name, access) => response := CreateRole(actor, id, name, access);
      case UpdateRole(_, _, _, _) => response := UpdateRole(actor, req);
      case RemoveRole(role) => response := RemoveRole(actor, role);
      case DuplicateRole(role, id, name) => response := Duplicate(actor, role, id, name);
    }

    /** One request of a stored account: its access is read, the guard is asked, then the request is handled. */
    method Handle(actor: Id, req: Request) returns (response: Response)
      requires actor in accounts
      modifies this
      ensures State() == Step(old(State()), actor, req)
      ensures response == Decide(old(State()), SubjectOf(old(roles), old(accounts)[actor]), req).response
    {
      var subject := SubjectOf(roles, accounts[actor]);
      if !Can(subject, Accounts, NeededLevel(req)) { return NoPermission; }
      if req.CreateAccount? || req.UpdateAccount? || req.DeleteAccount? {
        response := HandleAccount(subject, req);
      } else {
        response := HandleRole(subject, req);
      }
    }

    /** Requests one after the other; accounts that are gone by then are not heard. */
    method HandleAll(actions: seq<Action>)
      modifies this
      ensures State() == RunState(old(State()), actions)
    {
      hide Step, Decide, Commit, SubjectOf;
      var i := 0;
      assert actions[..0] == [];
      while i < |actions|
        invariant 0 <= i <= |actions|
        invariant State() == RunState(old(State()), actions[..i])
      {
        assert actions[..i + 1][..i] == actions[..i];
        if actions[i].actor in accounts {
          var _ := Handle(actions[i].actor, actions[i].req);
        }
        i := i + 1;
      }
      assert actions[..i] == actions;
    }

    /**
     * Whatever non-admins send to the store in whatever order, they end up with no power that none of them
     * had, no account becomes or stops being an admin, and role names stay unique.
     */
    method ServeNonAdmins(actions: seq<Action>)
      requires Valid(State()) && ByNonAdmins(State(), actions)
      modifies this
      ensures Valid(State())
      ensures forall power :: SomeNonAdminHolds(State(), power) ==> SomeNonAdminHolds(old(State()), power)
      ensures forall id :: (id in accounts && accounts[id].isAdmin) <==>
                           (id in old(accounts) && old(accounts)[id].isAdmin)
    {
      ghost var before := State();
      HandleAll(actions);
      RunKeepsValid(before, actions);
      forall power | SomeNonAdminHolds(State(), power)
        ensures SomeNonAdminHolds(before, power)
      {
        RunConfined(before, actions, power);
      }
      forall id
        ensures (id in accounts && accounts[id].isAdmin) <==> (id in before.accounts && before.accounts[id].isAdmin)
      {
        RunKeepsAdmins(before, actions, id);
      }
    }
  }
}
