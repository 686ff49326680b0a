/** What both migrators share: the calls a migration makes on the target
    database, recorded as an event trace, and how `start()` resolves. */
module Migration {
  import opened Wrappers
  import opened Users
  import opened Snapshot

  /** The provenance tag a migrated snapshot is saved with. */
  datatype SaveCause = LegacyMigration | MpdbMigration

  /** One observable step of a migration run, in the order it happens. */
  datatype Event =
    | WipeDatabase
    | EnsureUser(user: User)
    | SetUserData(user: User, data: UserData, cause: SaveCause)
    | LogFailure(user: User)

  /** How the future returned by `start()` completes. */
  datatype Outcome = Resolved(success: bool) | CompletedExceptionally

  datatype Run = Run(events: seq<Event>, outcome: Outcome)

  /** The target database, as far as a migration observes it: whether the
      wipe succeeds, and for which users `ensureUser` and `setUserData`
      complete normally. */
  datatype TargetDatabase = TargetDatabase(
    wipeSucceeds: bool,
    ensureSucceeds: User -> bool,
    writeSucceeds: User -> bool)

  /** A staged row after conversion: its user and the converted snapshot, or
      the exception the conversion raised. */
  type Staged = (User, Result<UserData>)

  /** The snapshots a trace writes, in order, with their users. */
  function Writes(events: seq<Event>): (w: seq<(User, UserData)>)
    ensures |w| <= |events|
    decreases |events|
  {
    if events == [] then []
    else
      var rest := Writes(events[1..]);
      match events[0]
      case SetUserData(u, d, _) => [(u, d)] + rest
      case _ => rest
  }

  lemma {:induction false} WritesAppend(a: seq<Event>, b: seq<Event>)
    ensures Writes(a + b) == Writes(a) + Writes(b)
    decreases |a|
  {
    if a != [] {
      assert (a + b)[0] == a[0];
      assert (a + b)[1..] == a[1..] + b;
      WritesAppend(a[1..], b);
    } else {
      assert a + b == b;
    }
  }

  lemma WritesSingle(e: Event)
    ensures Writes([e]) == if e.SetUserData? then [(e.user, e.data)] else []
  {
    assert [e][1..] == [];
  }

  /** Every write is immediately preceded by `ensureUser` for the same user,
      and carries the given provenance tag. */
  predicate EnsuredBeforeWritten(events: seq<Event>, cause: SaveCause) {
    forall i :: 0 <= i < |events| && events[i].SetUserData? ==>
      0 < i && events[i - 1] == EnsureUser(events[i].user) && events[i].cause == cause
  }

  lemma EnsuredBeforeWrittenAppend(a: seq<Event>, b: seq<Event>, cause: SaveCause)
    requires EnsuredBeforeWritten(a, cause) && EnsuredBeforeWritten(b, cause)
    ensures EnsuredBeforeWritten(a + b, cause)
  {
    var ab := a + b;
    forall i | 0 <= i < |ab| && ab[i].SetUserData?
      ensures 0 < i && ab[i - 1] == EnsureUser(ab[i].user) && ab[i].cause == cause
    {
      if i >= |a| {
        assert ab[i] == b[i - |a|];
        assert i - |a| > 0;
        assert ab[i - 1] == b[i - |a| - 1];
      } else {
        assert ab[i] == a[i];
        assert ab[i - 1] == a[i - 1];
      }
    }
  }
}
