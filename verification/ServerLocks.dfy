/** One file level operation per server at a time: locks handed out with one-shot releases. */
module ServerLocks {
  import opened JsText

  datatype LockKind = BackupLock | RestoreLock

  /** A handed out release: whose lock it frees, and whether it has run. */
  datatype Token = Token(server: Id, kind: LockKind, released: bool)

  /** `tokens` lists every release ever handed out, in order. */
  datatype Locks = Locks(held: map<Id, LockKind>, tokens: seq<Token>)

  function Holder(locks: Locks, server: Id): Option<LockKind> {
    if server in locks.held then Some(locks.held[server]) else None
  }

  function Acquired(locks: Locks, server: Id, kind: LockKind): Locks {
    if server in locks.held then locks
    else Locks(locks.held[server := kind], locks.tokens + [Token(server, kind, false)])
  }

  function Released(locks: Locks, i: nat): Locks
    requires i < |locks.tokens|
  {
    var token := locks.tokens[i];
    if token.released then locks
    else Locks(locks.held - {token.server}, locks.tokens[i := token.(released := true)])
  }

  predicate Owns(locks: Locks, i: nat, server: Id) {
    i < |locks.tokens| && locks.tokens[i].server == server && !locks.tokens[i].released
  }

  /** Each held lock has exactly one unreleased token, of its own kind, and every such token holds. */
  ghost predicate Consistent(locks: Locks) {
    && (forall i :: 0 <= i < |locks.tokens| && !locks.tokens[i].released ==>
          locks.tokens[i].server in locks.held && locks.held[locks.tokens[i].server] == locks.tokens[i].kind)
    && (forall server :: server in locks.held ==> exists i :: 0 <= i < |locks.tokens| && Owns(locks, i, server))
    && (forall i, j, server :: 0 <= i < |locks.tokens| && 0 <= j < |locks.tokens| ==>
          Owns(locks, i, server) && Owns(locks, j, server) ==> i == j)
  }

  lemma AcquireKeepsConsistent(locks: Locks, server: Id, kind: LockKind)
    requires Consistent(locks)
    ensures Consistent(Acquired(locks, server, kind))
    ensures server !in locks.held ==> Owns(Acquired(locks, server, kind), |locks.tokens|, server)
  {
    var after := Acquired(locks, server, kind);
    if server !in locks.held {
      forall other | other in after.held
        ensures exists i :: 0 <= i < |after.tokens| && Owns(after, i, other)
      {
        if other == server {
          assert Owns(after, |locks.tokens|, other);
        } else {
          var i :| 0 <= i < |locks.tokens| && Owns(locks, i, other);
          assert Owns(after, i, other);
        }
      }
      forall i, j, other | 0 <= i < |after.tokens| && 0 <= j < |after.tokens|
                           && Owns(after, i, other) && Owns(after, j, other)
        ensures i == j
      {
        if i < |locks.tokens| { assert Owns(locks, i, other); }
        if j < |locks.tokens| { assert Owns(locks, j, other); }
      }
    }
  }

  lemma ReleaseKeepsConsistent(locks: Locks, n: nat)
    requires Consistent(locks) && n < |locks.tokens|
    ensures Consistent(Released(locks, n))
  {
    var after, freed := Released(locks, n), locks.tokens[n].server;
    if !locks.tokens[n].released {
      assert Owns(locks, n, freed);
      forall i | 0 <= i < |after.tokens| && !after.tokens[i].released
        ensures after.tokens[i].server in after.held && after.held[after.tokens[i].server] == after.tokens[i].kind
      {
        assert Owns(locks, i, locks.tokens[i].server);
      }
      forall other | other in after.held
        ensures exists i :: 0 <= i < |after.tokens| && Owns(after, i, other)
      {
        var i :| 0 <= i < |locks.tokens| && Owns(locks, i, other);
        assert Owns(after, i, other);
      }
      forall i, j, other | 0 <= i < |after.tokens| && 0 <= j < |after.tokens|
                           && Owns(after, i, other) && Owns(after, j, other)
        ensures i == j
      {
        assert Owns(locks, i, other) && Owns(locks, j, other);
      }
    }
  }

  /** A server is busy exactly while a release for it has not run, and the holder is what that one was taken for. */
  lemma HolderHasRelease(locks: Locks, server: Id, kind: LockKind)
    requires Consistent(locks)
    ensures Holder(locks, server) == Some(kind) <==>
            exists i :: 0 <= i < |locks.tokens| && Owns(locks, i, server) && locks.tokens[i].kind == kind
  {
  }

  /** A release only ever frees the lock it was handed out for, while that lock is still its own. */
  lemma ReleaseFreesOwnOnly(locks: Locks, i: nat, server: Id)
    requires Consistent(locks) && i < |locks.tokens|
    ensures Holder(Released(locks, i), server) != Holder(locks, server) <==> Owns(locks, i, server)
    ensures Owns(locks, i, server) ==> Holder(Released(locks, i), server) == None
    ensures forall j :: 0 <= j < |locks.tokens| && j != i && Owns(locks, j, server) ==>
              Holder(Released(locks, i), server) == Holder(locks, server) == Some(locks.tokens[j].kind)
  {
    if j :| 0 <= j < |locks.tokens| && j != i && Owns(locks, j, server) {
      assert !Owns(locks, i, server);
    }
  }

  // ----- the service object

  class Release {
    const server: Id
    ghost const kind: LockKind
    var released: bool

    constructor (server: Id, ghost kind: LockKind)
      ensures this.server == server && this.kind == kind && !released
    {
      this.server, this.kind, this.released := server, kind, false;
    }

    ghost function AsToken(): Token
      reads this
    {
      Token(server, kind, released)
    }
  }

  class ServerLocksService {
    var held: map<Id, LockKind>
    ghost var issued: seq<Release>

    ghost predicate Valid()
      reads this
    {
      forall i, j :: 0 <= i < j < |issued| ==> issued[i] != issued[j]
    }

    ghost function View(): Locks
      reads this, issued
    {
      Locks(held, seq(|issued|, i requires 0 <= i < |issued| reads this, issued => issued[i].AsToken()))
    }

    constructor ()
      ensures Valid() && View() == Locks(map[], [])
    {
      held, issued := map[], [];
    }

    /** Takes the lock, or gives None while the server is busy. */
    method Acquire(server: Id, kind: LockKind) returns (release: Option<Release>)
      requires Valid()
      modifies this
      ensures Valid() && View() == Acquired(old(View()), server, kind)
      ensures release.Some? <==> server !in old(held)
      ensures release.Some? ==> fresh(release.value) && issued == old(issued) + [release.value]
      ensures release.None? ==> issued == old(issued)
    {
      if server in held { return None; }
      held := held[server := kind];
      var handle := new Release(server, kind);
      issued := issued + [handle];
      return Some(handle);
    }

    /** Runs a release that was handed out as the i-th. */
    method Run(release: Release, ghost i: nat)
      requires Valid() && i < |issued| && issued[i] == release
      modifies this, release
      ensures Valid() && issued == old(issued) && View() == Released(old(View()), i)
    {
      if release.released { return; }
      release.released := true;
      held := held - {release.server};
    }

    method HolderOf(server: Id) returns (kind: Option<LockKind>)
      ensures kind == Holder(View(), server)
    {
      kind := if server in held then Some(held[server]) else None;
    }
  }
}
