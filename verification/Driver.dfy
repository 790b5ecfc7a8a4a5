/**
  The durable queue driver. Several drivers may share one task table; every method issues the
  statements of the source, in its order, and the table records them. Where a method issues two
  statements outside a transaction, others lists what other sessions run between them.
 */
module Driver {
  import opened Common
  import opened Tasks
  import opened Runs
  import opened Fencing
  import opened Lifetimes
  import opened Budgets

  datatype TaskError =
    | DriverClosed | InvalidQueue | DecodeFailed | NegativeRetries | KeyTooLong | InsertFailed
    | IdempotencyConflict | InvalidLease | QueueEmpty | LeaseLost | TaskNotFound | TaskNotRetryable | InvalidBatch

  datatype Cause = NoError | DeadlineExceeded | ContextCanceled | HandlerError

  const MAX_TASK_PRUNE_BATCH := 10000

  function FailureCode(cause: Cause): string {
    match cause
    case NoError => ""
    case DeadlineExceeded => "timeout"
    case ContextCanceled => "canceled"
    case HandlerError => "job_handler_error"
  }

  class TaskTable {
    var rows: Table
    ghost var log: Log

    /** The rows are what the recorded statements, all legal, leave behind. */
    ghost predicate Valid()
      reads this
    {
      Legal(log) && rows == Replay(log)
    }

    constructor ()
      ensures Valid() && rows == map[] && log == []
    {
      rows := map[];
      log := [];
    }

    /** Runs one statement and returns the number of rows it affected. */
    method Exec(s: Stmt) returns (affected: nat)
      requires Valid() && LegalStmt(rows, Tokens(log), s)
      modifies this
      ensures Valid() && log == old(log) + [s]
      ensures rows == Apply(old(rows), s) && affected == |Affected(old(rows), s)|
    {
      hide Legal, Replay, Tokens;
      affected := |Affected(rows, s)|;
      LegalAppend(log, s);
      rows := Apply(rows, s);
      log := log + [s];
    }

    /** Statements of other sessions take effect. */
    method Interleave(others: seq<Stmt>)
      requires Valid() && Legal(log + others)
      modifies this
      ensures Valid() && log == old(log) + others
    {
      hide Legal, Replay, Tokens;
      ghost var before := log;
      assert before == before + others[..0];
      for i := 0 to |others|
        invariant Valid() && log == before + others[..i] && Legal(before + others)
      {
        NextIsLegal(before + others, |before| + i);
        assert (before + others)[..|before| + i] == log;
        var _ := Exec(others[i]);
        assert log == before + others[..i + 1];
      }
      assert others[..|others|] == others;
    }
  }

  lemma NextIsLegal(log: Log, i: nat)
    requires Legal(log) && i < |log|
    ensures LegalStmt(Replay(log[..i]), Tokens(log[..i]), log[i])
  {
    Unroll(log, i);
  }

  /** The newest statement of the log is the one that issued the claim. */
  predicate LastHandsOut(log: Log, c: Claim) {
    log != [] && HandedOut(log, |log| - 1, c)
  }

  predicate Names(s: Stmt, id: TaskId) {
    match s
    case Take(_, _, target, _, _, _) => target == id
    case Settle(c, _, _) => c.id == id
    case SettleCancel(c, _) => c.id == id
    case Extend(c, _, _) => c.id == id
    case Cancel(target, _) => target == id
    case RetryFailed(target, _) => target == id
    case _ => false
  }

  /** A statement that names its row affects that row or nothing. */
  lemma SingleRow(t: Table, s: Stmt, id: TaskId)
    requires Names(s, id)
    ensures |Affected(t, s)| == if id in t && Hits(id, t[id], s) then 1 else 0
    ensures Apply(t, s) == if id in t && Hits(id, t[id], s) then t[id := Updated(t[id], s)] else t
  {
    hide Hits, Updated, Apply, Affected;
    AffectsOnly(t, s, id);
    if id in t && Hits(id, t[id], s) {
      SingleRowUpdate(t, s, id);
    } else {
      UntouchedTable(t, s);
    }
  }

  lemma AffectsOnly(t: Table, s: Stmt, id: TaskId)
    requires Names(s, id)
    ensures Affected(t, s) == if id in t && Hits(id, t[id], s) then {id} else {}
  {
    hide Holds, Removed;
    NothingRemoved(t, s, id);
    forall x | x in t && x != id ensures !Hits(x, t[x], s) {
    }
  }

  lemma NothingRemoved(t: Table, s: Stmt, id: TaskId)
    requires Names(s, id)
    ensures Removed(t, s) == {}
  {
  }

  lemma SingleRowUpdate(t: Table, s: Stmt, id: TaskId)
    requires Names(s, id) && id in t && Hits(id, t[id], s)
    ensures Apply(t, s) == t[id := Updated(t[id], s)]
  {
  }

  /** A row of the queue after both recovery updates of a claim. */
  function Recovered(r: Row, queue: string, now: int): Row {
    if r.queue == queue && r.status == Processing && Expired(r, now) then
      if r.cancelRequested.Some? then Released(r, Canceled, now)
      else if r.attempts >= r.maxAttempts then
        Released(r, Failed, now).(failedAt := Some(now), lastFailure := "lease_expired")
      else r
    else r
  }

  function RecoveredTable(t: Table, queue: string, now: int): (u: Table)
    ensures u.Keys == t.Keys
  {
    map id | id in t :: Recovered(t[id], queue, now)
  }

  /** The recoveries neither take away nor add a claimable row, and leave those rows alone. */
  lemma RecoveriesKeepClaimables(t: Table, queue: string, now: int, locked: set<TaskId>)
    ensures var u := Apply(t, RecoverCanceled(queue, now, t.Keys));
      u.Keys == t.Keys && Apply(u, RecoverExhausted(queue, now, t.Keys)) == RecoveredTable(t, queue, now)
    ensures ClaimableIds(RecoveredTable(t, queue, now), queue, now, locked) == ClaimableIds(t, queue, now, locked)
    ensures forall id :: id in ClaimableIds(t, queue, now, locked) ==> RecoveredTable(t, queue, now)[id] == t[id]
  {
  }

  /** Selecting after the recoveries is selecting among the rows that were claimable before them. */
  lemma SelectAfterRecovery(t: Table, queue: string, now: int, locked: set<TaskId>)
    ensures var u, ids := RecoveredTable(t, queue, now), ClaimableIds(t, queue, now, locked);
      var pick := Select(u, queue, now, locked);
      if ids == {} then pick == None
      else pick.Some? && IsFirst(ClaimRanks(t), ids, pick.value) && u[pick.value] == t[pick.value]
  {
    var u, ids := RecoveredTable(t, queue, now), ClaimableIds(t, queue, now, locked);
    RecoveriesKeepClaimables(t, queue, now, locked);
    var pick := Select(u, queue, now, locked);
    if pick.Some? {
      forall x | x in ids && x != pick.value ensures Before(ClaimRanks(t), pick.value, x) {
        assert Before(ClaimRanks(u), pick.value, x);
      }
    }
  }

  /**
    What a claim answers (r) and leaves behind (u): the first claimable row that no other transaction
    has locked is leased under the token, every other row is recovered if its lease ran out and kept
    otherwise, and the queue is reported empty exactly when no row is claimable.
   */
  predicate ClaimsFirst(t: Table, u: Table, r: Result<Claim, TaskError>, queue: string, leaseDuration: int,
                        now: int, token: string, locked: set<TaskId>)
  {
    var ids := ClaimableIds(t, queue, now, locked);
    if ids == {} then r == Err(QueueEmpty) && u == RecoveredTable(t, queue, now)
    else
      && r.Ok? && IsFirst(ClaimRanks(t), ids, r.value.id)
      && var id, row := r.value.id, t[r.value.id];
      && r.value == Claim(id, row.payload, token, row.fencing + 1, row.attempts + 1)
      && u == RecoveredTable(t, queue, now)[id := Taken(row, token, now + leaseDuration, now)]
  }

  /**
    The row a claim hands out, column by column: an unlocked row of the queue without cancel request, with attempts
    left, that is pending and due or whose lease has run out. It is leased, and the holder learns what was written.
   */
  lemma ClaimedRowIsDue(t: Table, u: Table, r: Result<Claim, TaskError>, queue: string, leaseDuration: int,
                        now: int, token: string, locked: set<TaskId>)
    requires ClaimsFirst(t, u, r, queue, leaseDuration, now, token, locked) && r.Ok?
    ensures r.value.id in t && r.value.id !in locked && r.value.id in u
    ensures var row := t[r.value.id];
      && row.queue == queue && row.cancelRequested == None && row.attempts < row.maxAttempts
      && (|| (row.status == Pending && row.availableAt <= now)
          || (row.status == Processing && row.leaseExpires.Some? && row.leaseExpires.value <= now))
      && r.value == Claim(r.value.id, row.payload, token, row.fencing + 1, row.attempts + 1)
      && u[r.value.id] == row.(status := Processing, attempts := row.attempts + 1, leaseToken := token,
           leaseExpires := Some(now + leaseDuration), fencing := row.fencing + 1, updatedAt := now)
  {
  }

  /**
    The queue is reported empty exactly when no unlocked row meets these conditions; otherwise every other unlocked
    row that meets them comes later by available_at, created_at and id.
   */
  lemma EarliestDueRowIsClaimed(t: Table, u: Table, r: Result<Claim, TaskError>, queue: string, leaseDuration: int,
                                now: int, token: string, locked: set<TaskId>)
    requires ClaimsFirst(t, u, r, queue, leaseDuration, now, token, locked)
    ensures r.Err? ==> r == Err(QueueEmpty)
    ensures r == Err(QueueEmpty) <==> forall id :: id in t && id !in locked ==>
      !(&& t[id].queue == queue && t[id].cancelRequested == None && t[id].attempts < t[id].maxAttempts
        && (|| (t[id].status == Pending && t[id].availableAt <= now)
            || (t[id].status == Processing && t[id].leaseExpires.Some? && t[id].leaseExpires.value <= now)))
    ensures r.Ok? ==> r.value.id in t && forall id :: id in t && id !in locked && id != r.value.id ==>
      var first, row := t[r.value.id], t[id];
      (&& row.queue == queue && row.cancelRequested == None && row.attempts < row.maxAttempts
       && (|| (row.status == Pending && row.availableAt <= now)
           || (row.status == Processing && row.leaseExpires.Some? && row.leaseExpires.value <= now))) ==>
      (|| first.availableAt < row.availableAt
       || (first.availableAt == row.availableAt && first.createdAt < row.createdAt)
       || (first.availableAt == row.availableAt && first.createdAt == row.createdAt && r.value.id < id))
  {
    var ids := ClaimableIds(t, queue, now, locked);
    assert forall id :: id in t && id !in locked ==> (Claimable(t[id], queue, now) <==> id in ids);
  }

  /** What a claim does to all other rows, column by column. */
  lemma ClaimRecoversTheRest(t: Table, u: Table, r: Result<Claim, TaskError>, queue: string, leaseDuration: int,
                             now: int, token: string, locked: set<TaskId>)
    requires ClaimsFirst(t, u, r, queue, leaseDuration, now, token, locked)
    ensures u.Keys == t.Keys
    ensures forall id :: id in t && !(r.Ok? && id == r.value.id) ==>
      var row := t[id];
      u[id] ==
        if !(row.queue == queue && row.status == Processing
             && row.leaseExpires.Some? && row.leaseExpires.value <= now) then row
        else if row.cancelRequested.Some? then
          row.(status := Canceled, leaseToken := "", leaseExpires := None, updatedAt := now)
        else if row.attempts >= row.maxAttempts then
          row.(status := Failed, leaseToken := "", leaseExpires := None, failedAt := Some(now),
               lastFailure := "lease_expired", updatedAt := now)
        else row
  {
    hide Claimable;
    if r.Ok? {
      ClaimedRowIsDue(t, u, r, queue, leaseDuration, now, token, locked);
    }
  }

  /** The claim is held and its cancellation was not requested. */
  predicate Settleable(t: Table, c: Claim) {
    HeldBy(t, c) && t[c.id].cancelRequested.None?
  }

  /** The claim is held and its cancellation was requested. */
  predicate Cancelable(t: Table, c: Claim) {
    HeldBy(t, c) && t[c.id].cancelRequested.Some?
  }

  /** How a call that could not settle its claim ends, on the table that it finds for its second statement. */
  predicate CanceledOrLost(later: Table, after: Table, c: Claim, now: int, err: Option<TaskError>) {
    if Cancelable(later, c) then
      && err == None
      && after == later[c.id :=
           later[c.id].(status := Canceled, leaseToken := "", leaseExpires := None, updatedAt := now)]
    else err == Some(LeaseLost) && after == later
  }

  function Conflicting(t: Table, row: Row): set<TaskId> {
    set id | id in t && t[id].queue == row.queue && t[id].key == row.key
  }

  /** The row is new: its id is unused and its key, if it has one, is unbound. */
  predicate Unbound(t: Table, row: Row)
    requires KeysUnique(t)
  {
    row.id !in t && (row.key.Some? ==> (row.queue, row.key.value) !in Bindings(t))
  }

  /**
    Pushing a row, read as insertion into the key map. A new row is inserted; otherwise the key is looked up in
    the table (later) that the statements of others left behind meanwhile, and answers for the row it is bound to.
   */
  function Pushed(t: Table, later: Table, row: Row): (Table, Result<TaskId, TaskError>)
    requires KeysUnique(t) && KeysUnique(later)
  {
    if Unbound(t, row) then (t[row.id := row], Ok(row.id))
    else if row.key.None? then (t, Err(InsertFailed))
    else if (row.queue, row.key.value) !in Bindings(later) then (later, Err(InsertFailed))
    else
      var (id, hash) := Bindings(later)[(row.queue, row.key.value)];
      (later, if hash == row.hash then Ok(id) else Err(IdempotencyConflict))
  }

  /** What the unique index does, in terms of the key map. */
  lemma KeyedInsert(t: Table, row: Row)
    requires KeysUnique(t)
    ensures Admits(t, row) <==> Unbound(t, row)
    ensures row.key.Some? ==>
      var k, b := (row.queue, row.key.value), Bindings(t);
      && (k in b ==> b[k].0 in t && Conflicting(t, row) == {b[k].0} && t[b[k].0].hash == b[k].1)
      && (k !in b ==> Conflicting(t, row) == {})
  {
    if row.key.Some? {
      var k, b := (row.queue, row.key.value), Bindings(t);
      AdmitsFreeKeys(t, row);
      if k in b {
        forall id | id in Conflicting(t, row) ensures id == b[k].0 {
          assert t[id].key.Some? && t[id].queue == k.0;
        }
        assert b[k].0 in Conflicting(t, row);
      } else {
        forall id | id in t ensures id !in Conflicting(t, row) {
        }
      }
    }
  }

  /** What a push does, in terms of the rows rather than of the key map. */
  lemma PushedByRows(t: Table, later: Table, row: Row)
    requires KeysUnique(t) && KeysUnique(later)
    ensures
      if row.id !in t && (row.key == None || forall x :: x in t ==> !(t[x].queue == row.queue && t[x].key == row.key))
      then Pushed(t, later, row) == (t[row.id := row], Ok(row.id))
      else if row.key == None then Pushed(t, later, row) == (t, Err(InsertFailed))
      else
        && Pushed(t, later, row).0 == later
        && (Pushed(t, later, row).1 == Err(InsertFailed) <==>
              forall x :: x in later ==> !(later[x].queue == row.queue && later[x].key == row.key))
        && forall x :: x in later && later[x].queue == row.queue && later[x].key == row.key ==>
             Pushed(t, later, row).1 == if later[x].hash == row.hash then Ok(x) else Err(IdempotencyConflict)
  {
    KeyedInsert(t, row);
    hide Bindings;
    if row.key.Some? {
      BoundByRows(t, row.queue, row.key.value);
      BoundByRows(later, row.queue, row.key.value);
    }
  }

  lemma BoundByRows(t: Table, queue: string, key: string)
    requires KeysUnique(t)
    ensures (queue, key) in Bindings(t) <==> exists x :: x in t && t[x].queue == queue && t[x].key == Some(key)
    ensures forall x :: x in t && t[x].queue == queue && t[x].key == Some(key) ==>
      (queue, key) in Bindings(t) && Bindings(t)[(queue, key)] == (x, t[x].hash)
  {
  }

  /** A refused statement leaves no trace: the statements of others after it do what they would do without it. */
  lemma {:induction false} RefusedVanishes(log: Log, s: Stmt, others: seq<Stmt>)
    requires Legal(log + others) && LegalStmt(Replay(log), Tokens(log), s)
    requires !s.Take? && Affected(Replay(log), s) == {}
    ensures Legal(log + [s] + others) && Replay(log + [s] + others) == Replay(log + others)
    ensures Tokens(log + [s] + others) == Tokens(log + others)
    decreases |others|
  {
    hide Legal, Replay, Tokens;
    if others == [] {
      assert log + others == log && log + [s] + others == log + [s];
      UntouchedTable(Replay(log), s);
      LegalAppend(log, s);
    } else {
      var n := |others| - 1;
      var short, last := others[..n], others[n];
      assert log + others == log + short + [last] && log + [s] + others == log + [s] + short + [last];
      LegalPrefix(log + others, |log| + n);
      NextIsLegal(log + others, |log| + n);
      assert (log + others)[..|log| + n] == log + short;
      RefusedVanishes(log, s, short);
      LegalAppend(log + short, last);
      LegalAppend(log + [s] + short, last);
    }
  }

  /**
    Until a keyed task is deleted, pushing its key again changes nothing and answers with its id or a conflict,
    as decided by the fingerprint of the first push, whatever workers and operators did in between.
   */
  lemma RepeatedPushAnswersAlike(log: Log, others: seq<Stmt>, id: TaskId, i: nat, row: Row)
    requires i <= |log| && row.key.Some? && Legal(log + others)
    requires Lives(log + others, id, i, |log + others|)
    requires id in At(log, i) && At(log, i)[id].key == row.key && At(log, i)[id].queue == row.queue
    ensures KeysUnique(Replay(log)) && KeysUnique(Replay(log + others))
    ensures Pushed(Replay(log), Replay(log + others), row)
         == (Replay(log + others), if row.hash == At(log, i)[id].hash then Ok(id) else Err(IdempotencyConflict))
  {
    hide Legal, Replay, Tokens;
    var all := log + others;
    assert all[..i] == log[..i] && all[..|log|] == log && all[..|all|] == all;
    InvAt(all, |log|);
    InvAt(all, |all|);
    assert id in At(all, |log|) && id in At(all, |all|);
    assert Lives(all, id, i, |log|);
    IdentityPersists(all, id, i, |log|);
    IdentityPersists(all, id, i, |all|);
  }

  /** Every reachable table satisfies the invariants, and honors cancellations unless a recovery failed a marked row. */
  lemma TableInvariants(db: TaskTable)
    requires db.Valid()
    ensures TableInv(db.rows, Tokens(db.log))
    ensures AlwaysHonored(db.log) <==> AllSpareMarked(db.log)
  {
    hide Legal, Replay, Tokens;
    RunKeepsInv(db.log);
    HonoredExactlyWhenSpared(db.log);
  }

  lemma AppendSpares(log: Log, s: Stmt)
    requires AllSpareMarked(log) && SparesMarked(Replay(log), s)
    ensures AllSpareMarked(log + [s])
  {
    hide Legal, Replay, Tokens;
    var more := log + [s];
    forall n | 0 <= n < |more| ensures SparesMarked(At(more, n), more[n]) {
      assert more[..n] == if n < |log| then log[..n] else log;
      if n < |log| {
        assert SparesMarked(At(log, n), log[n]);
      }
    }
  }

  lemma {:induction false} HeldThroughout(log: Log, m: nat, j: nat, k: nat, c: Claim)
    requires Legal(log) && m < j <= k <= |log| && Issued(log, m, c) && HeldBy(At(log, k), c)
    ensures HeldBy(At(log, j), c) && Lives(log, c.id, j, k)
    decreases k
  {
    hide Legal, Replay, Tokens;
    if j < k {
      HeldBefore(log, m, k - 1, c);
      HeldThroughout(log, m, j, k - 1, c);
    }
  }

  /**
    A call that cannot settle its claim answers truthfully: whatever others do before its second statement, it
    reports the lease as lost exactly when the claim is no longer held by then, and cancels the row otherwise.
   */
  lemma LostExactlyWhenNotHeld(log: Log, others: seq<Stmt>, m: nat, c: Claim)
    requires Legal(log + others) && m < |log| && Issued(log, m, c) && !Settleable(Replay(log), c)
    ensures Cancelable(Replay(log + others), c) <==> HeldBy(Replay(log + others), c)
  {
    hide Legal, Replay, Tokens;
    var all := log + others;
    assert all[m] == log[m] && all[..|log|] == log && all[..|all|] == all;
    if HeldBy(Replay(all), c) {
      HeldThroughout(all, m, |log|, |all|, c);
      CancelRequestSticks(all, c.id, |log|, |all|);
    }
  }

  lemma RecoverSpares(log: Log, queue: string, now: int, rows: set<TaskId>)
    requires Legal(log)
    ensures var first, second := RecoverCanceled(queue, now, rows), RecoverExhausted(queue, now, rows);
      AllSpareMarked(log) ==> AllSpareMarked(log + [first] + [second])
  {
    hide Legal, Replay, Tokens;
    var first, second := RecoverCanceled(queue, now, rows), RecoverExhausted(queue, now, rows);
    if AllSpareMarked(log) {
      LegalAppend(log, first);
      AppendSpares(log, first);
      FirstRecoveryClearsTheWay(Replay(log), queue, now, rows);
      AppendSpares(log + [first], second);
    }
  }

  lemma PruneOutcome(t: Table, s: Stmt)
    requires s.Prune?
    ensures Apply(t, s) == t - Removed(t, s)
  {
    var gone, u := Removed(t, s), Apply(t, s);
    forall id | id in t && id !in gone ensures id in u && u[id] == t[id] {
    }
  }

  lemma PruneCount(t: Table, s: Stmt)
    requires s.Prune?
    ensures Affected(t, s) == Removed(t, s)
  {
    assert forall id :: id in t ==> !Hits(id, t[id], s);
  }

  lemma KeysAfterDelete(t: Table, gone: set<TaskId>)
    requires gone <= t.Keys
    ensures t.Keys - (t - gone).Keys == gone
  {
  }

  /** A finished row from before the cutoff that stays is younger than all that go, which fill the batch. */
  lemma OldestGoFirst(t: Table, s: Stmt)
    requires s.Prune?
    ensures var gone := Removed(t, s);
      && |gone| <= s.batch
      && (forall x :: x in gone ==>
            x !in s.locked && t[x].status in {Completed, Failed, Canceled} && t[x].updatedAt < s.before)
      && forall y :: y in t && y !in gone && y !in s.locked && t[y].status in {Completed, Failed, Canceled}
                     && t[y].updatedAt < s.before ==>
           && |gone| == s.batch
           && forall x :: x in gone ==>
                t[x].updatedAt < t[y].updatedAt || (t[x].updatedAt == t[y].updatedAt && x < y)
  {
    hide FirstN;
    var eligible, gone := Prunable(t, s.before, s.locked), Removed(t, s);
    forall y | y in eligible && y !in gone
      ensures |gone| == s.batch && forall x :: x in gone ==> Before(PruneRanks(t), x, y)
    {
      ProperSubsetIsSmaller(gone, eligible, y);
    }
    forall y | y in t && y !in s.locked && t[y].status in {Completed, Failed, Canceled} && t[y].updatedAt < s.before
      ensures y in eligible
    {
    }
  }

  lemma ProperSubsetIsSmaller(a: set<TaskId>, b: set<TaskId>, y: TaskId)
    requires a <= b && y in b && y !in a
    ensures |a| < |b|
  {
    SubsetIsNotLarger(a, b - {y});
  }

  lemma SubsetIsNotLarger(a: set<TaskId>, b: set<TaskId>)
    requires a <= b
    ensures |a| <= |b|
  {
    if a != {} {
      var x :| x in a;
      SubsetIsNotLarger(a - {x}, b - {x});
    }
  }

  lemma RowKnowsItsId(log: Log, id: TaskId)
    requires Legal(log) && id in Replay(log)
    ensures Replay(log)[id].id == id
  {
    RunKeepsInv(log);
  }

  class PostgresDriver {
    const db: TaskTable
    const sha: (string, string, int) -> string
    var closed: bool

    constructor (db: TaskTable, sha: (string, string, int) -> string)
      ensures this.db == db && this.sha == sha && !closed
    {
      this.db := db;
      this.sha := sha;
      closed := false;
    }

    function Fingerprint(e: Envelope): string {
      sha(e.jobType, e.data, e.maxRetries)
    }

    /**
      The row that insert builds from a decoded envelope: unclaimed, storing a payload that names the row
      and has the stored fingerprint, with at least one attempt, under the key unless that is blank.
     */
    function NewRow(queue: string, e: Envelope, drawnId: TaskId, payload: Payload,
                    availableAt: int, createdAt: int, updatedAt: int): (r: Row)
      requires e.maxRetries >= 0 && payload == Encoded(e)
      ensures Newborn(r) && r.payload.Encoded? && r.payload.envelope.id == Some(r.id)
      ensures r.hash == Fingerprint(r.payload.envelope) == Fingerprint(e)
      ensures AttemptLimit(r.payload) == r.maxAttempts && r.availableAt == availableAt
      ensures (e.id.Some? ==> r.payload == payload) && r.id in {drawnId, if e.id.Some? then e.id.value else drawnId}
      ensures r.queue == TrimSpace(queue) && r.createdAt == createdAt && r.updatedAt == updatedAt
      ensures r.key == if TrimSpace(e.idempotencyKey) == "" then None else Some(TrimSpace(e.idempotencyKey))
    {
      var key := TrimSpace(e.idempotencyKey);
      Row(if e.id.Some? then e.id.value else drawnId, TrimSpace(queue), if key == "" then None else Some(key),
          if e.id.Some? then payload else Encoded(e.(id := Some(drawnId))), Fingerprint(e),
          Pending, 0, if e.maxRetries > 1 then e.maxRetries else 1, availableAt,
          "", None, 0, None, None, None, "", createdAt, updatedAt)
    }

    predicate QueueNameOk(queue: string) {
      TrimSpace(queue) != "" && ByteLength(TrimSpace(queue)) <= 128
    }

    predicate Acceptable(queue: string, payload: Payload) {
      && QueueNameOk(queue) && payload.Encoded? && payload.envelope.maxRetries >= 0
      && ByteLength(TrimSpace(payload.envelope.idempotencyKey)) <= 128
    }

    /** The error for a push that is not acceptable; the queue name is checked before the payload. */
    function Refusal(queue: string, payload: Payload): TaskError
      requires !Acceptable(queue, payload)
    {
      if !QueueNameOk(queue) then InvalidQueue
      else if payload.Undecodable? then DecodeFailed
      else if payload.envelope.maxRetries < 0 then NegativeRetries
      else KeyTooLong
    }

    /**
      Stores a task. A keyed push is the insertion into a map from (queue, key) to (id, fingerprint):
      a bound key answers with its id when the fingerprints agree and with a conflict otherwise.
     */
    method PushTask(queue: string, payload: Payload, availableAt: int, createdAt: int, updatedAt: int,
                    drawnId: TaskId, others: seq<Stmt>) returns (r: Result<TaskId, TaskError>)
      requires db.Valid() && Legal(db.log + others)
      modifies db
      ensures db.Valid() && old(db.log) <= db.log && KeysUnique(old(db.rows))
      ensures closed ==> r == Err(DriverClosed)
      ensures !closed && !Acceptable(queue, payload) ==> r == Err(Refusal(queue, payload))
      ensures closed || !Acceptable(queue, payload) ==> db.rows == old(db.rows) && db.log == old(db.log)
      ensures !closed && Acceptable(queue, payload) ==>
        var row := NewRow(queue, payload.envelope, drawnId, payload, availableAt, createdAt, updatedAt);
        var later := Replay(old(db.log) + others);
        KeysUnique(later) && (db.rows, r) == Pushed(old(db.rows), later, row)
      // The whole call once more, in terms of its arguments and the columns of the rows.
      ensures !closed ==>
        var name := TrimSpace(queue);
        if name == "" || ByteLength(name) > 128 then r == Err(InvalidQueue)
        else if payload.Undecodable? then r == Err(DecodeFailed)
        else if payload.envelope.maxRetries < 0 then r == Err(NegativeRetries)
        else if ByteLength(TrimSpace(payload.envelope.idempotencyKey)) > 128 then r == Err(KeyTooLong)
        else
          var e, key := payload.envelope, TrimSpace(payload.envelope.idempotencyKey);
          var id, hash := if e.id.Some? then e.id.value else drawnId, sha(e.jobType, e.data, e.maxRetries);
          var t, later := old(db.rows), Replay(old(db.log) + others);
          if id !in t && (key == "" || forall x :: x in t ==> !(t[x].queue == name && t[x].key == Some(key))) then
            && r == Ok(id)
            && db.rows == t[id := Row(id, name, if key == "" then None else Some(key), Encoded(e.(id := Some(id))),
                 hash, Pending, 0, if e.maxRetries > 1 then e.maxRetries else 1, availableAt, "", None, 0, None,
                 None, None, "", createdAt, updatedAt)]
          else if key == "" then r == Err(InsertFailed) && db.rows == t
          else
            && db.rows == later
            && (r == Err(InsertFailed) <==>
                  forall x :: x in later ==> !(later[x].queue == name && later[x].key == Some(key)))
            && forall x :: x in later && later[x].queue == name && later[x].key == Some(key) ==>
                 r == if later[x].hash == hash then Ok(x) else Err(IdempotencyConflict)
    {
      hide Legal, Replay, Tokens, Admits, Apply;
      RunKeepsInv(db.log);
      if closed {
        return Err(DriverClosed);
      }
      if !QueueNameOk(queue) {
        return Err(InvalidQueue);
      }
      if payload.Undecodable? {
        return Err(DecodeFailed);
      }
      var envelope := payload.envelope;
      if envelope.maxRetries < 0 {
        return Err(NegativeRetries);
      }
      if ByteLength(TrimSpace(envelope.idempotencyKey)) > 128 {
        return Err(KeyTooLong);
      }
      var row := NewRow(queue, envelope, drawnId, payload, availableAt, createdAt, updatedAt);
      r := Create(row, others);
      PushedByRows(old(db.rows), Replay(old(db.log) + others), row);
    }

    /** Inserts the row; when the table refuses it, looks up the task that holds its key. */
    method Create(row: Row, others: seq<Stmt>) returns (r: Result<TaskId, TaskError>)
      requires db.Valid() && KeysUnique(db.rows) && Newborn(row) && Legal(db.log + others)
      modifies db
      ensures db.Valid() && old(db.log) <= db.log && KeysUnique(Replay(old(db.log) + others))
      ensures (db.rows, r) == Pushed(old(db.rows), Replay(old(db.log) + others), row)
    {
      hide Legal, Replay, Tokens;
      KeyedInsert(db.rows, row);
      RunKeepsInv(db.log + others);
      if !Admits(db.rows, row) {
        RefusedVanishes(db.log, Insert(row), others);
      }
      var affected := db.Exec(Insert(row));
      if affected == 1 {
        return Ok(row.id);
      }
      if row.key.None? {
        return Err(InsertFailed);
      }
      db.Interleave(others);
      KeyedInsert(db.rows, row);
      var existing := Conflicting(db.rows, row);
      if existing == {} {
        return Err(InsertFailed);
      }
      var id :| id in existing;
      return if db.rows[id].hash == row.hash then Ok(id) else Err(IdempotencyConflict);
    }

    /** The two recovery updates at the start of a claim transaction, on all rows. */
    method Recover(queue: string, now: int)
      requires db.Valid()
      modifies db
      ensures db.Valid() && db.rows == RecoveredTable(old(db.rows), queue, now)
      ensures db.log == old(db.log) + [RecoverCanceled(queue, now, old(db.rows).Keys),
                                       RecoverExhausted(queue, now, old(db.rows).Keys)]
      ensures Tokens(db.log) == Tokens(old(db.log))
      ensures Brackets(db.log, |old(db.log)|, |old(db.log)| + 1)
      ensures AllSpareMarked(old(db.log)) ==> AllSpareMarked(db.log)
    {
      hide Legal, Replay, Tokens;
      ghost var log := db.log;
      var all := db.rows.Keys;
      var first, second := RecoverCanceled(queue, now, all), RecoverExhausted(queue, now, all);
      RecoveriesKeepClaimables(db.rows, queue, now, {});
      TokensGrow(log, first);
      TokensGrow(log + [first], second);
      RecoverSpares(log, queue, now, all);
      var _ := db.Exec(first);
      var _ := db.Exec(second);
      assert log + [first] + [second] == log + [first, second];
      assert db.log[..|log|] == log;
    }

    /**
      Claims the first claimable row that no other transaction has locked, after both recovery updates.
      Every other row is left as it was, and the queue is reported empty exactly when there is none.
     */
    method Claim(queue: string, leaseDuration: int, now: int, token: string, locked: set<TaskId>)
      returns (r: Result<Claim, TaskError>)
      requires db.Valid() && token != "" && token !in Tokens(db.log)
      modifies db
      ensures db.Valid() && old(db.log) <= db.log
      ensures closed ==> r == Err(DriverClosed)
      ensures !closed && leaseDuration <= 0 ==> r == Err(InvalidLease)
      ensures closed || leaseDuration <= 0 ==> db.rows == old(db.rows) && db.log == old(db.log)
      ensures !closed && leaseDuration > 0 ==>
        ClaimsFirst(old(db.rows), db.rows, r, queue, leaseDuration, now, token, locked)
      ensures r.Ok? ==> LastHandsOut(db.log, r.value)
      ensures AllSpareMarked(old(db.log)) ==> AllSpareMarked(db.log)
    {
      hide Legal, Replay, Tokens;
      if closed {
        return Err(DriverClosed);
      }
      if leaseDuration <= 0 {
        return Err(InvalidLease);
      }
      r := ClaimInTransaction(queue, leaseDuration, now, token, locked);
    }

    method ClaimInTransaction(queue: string, leaseDuration: int, now: int, token: string, locked: set<TaskId>)
      returns (r: Result<Claim, TaskError>)
      requires db.Valid() && token != "" && token !in Tokens(db.log)
      modifies db
      ensures db.Valid() && old(db.log) <= db.log
      ensures ClaimsFirst(old(db.rows), db.rows, r, queue, leaseDuration, now, token, locked)
      ensures r.Ok? ==> LastHandsOut(db.log, r.value)
      ensures AllSpareMarked(old(db.log)) ==> AllSpareMarked(db.log)
    {
      hide Legal, Replay, Tokens;
      SelectAfterRecovery(db.rows, queue, now, locked);
      Recover(queue, now);
      var pick := Select(db.rows, queue, now, locked);
      if pick.None? {
        return Err(QueueEmpty);
      }
      RowKnowsItsId(db.log, pick.value);
      r := Lease(db.rows[pick.value], queue, leaseDuration, now, token);
    }

    /** The guarded update at the end of a claim transaction, on the row its locked select returned. */
    method Lease(row: Row, queue: string, leaseDuration: int, now: int, token: string)
      returns (r: Result<Claim, TaskError>)
      requires db.Valid() && token != "" && token !in Tokens(db.log)
      requires row.id in db.rows && db.rows[row.id] == row && Claimable(row, queue, now)
      modifies db
      ensures db.Valid() && r == Ok(Tasks.Claim(row.id, row.payload, token, row.fencing + 1, row.attempts + 1))
      ensures db.rows == old(db.rows)[row.id := Taken(row, token, now + leaseDuration, now)]
      ensures db.log == old(db.log) + [Take(queue, now, row.id, row.fencing, token, now + leaseDuration)]
      ensures r.Ok? && LastHandsOut(db.log, r.value)
      ensures AllSpareMarked(old(db.log)) ==> AllSpareMarked(db.log)
    {
      hide Legal, Replay, Tokens;
      var take := Take(queue, now, row.id, row.fencing, token, now + leaseDuration);
      SingleRow(db.rows, take, row.id);
      ghost var before := db.log;
      if AllSpareMarked(before) {
        AppendSpares(before, take);
      }
      var affected := db.Exec(take);
      if affected != 1 {
        return Err(LeaseLost);
      }
      assert db.log[..|db.log| - 1] == before;
      return Ok(Tasks.Claim(row.id, row.payload, token, row.fencing + 1, row.attempts + 1));
    }

    /**
      The guarded update of Complete, Fail and Retry, and the cancellation it falls back to. The claim is settled
      if it is held and not marked; otherwise it is canceled if it is held and marked by then, and else lost.
     */
    method Finish(claim: Option<Claim>, outcome: Outcome, now: int, cancelNow: int, others: seq<Stmt>)
      returns (err: Option<TaskError>)
      requires db.Valid() && Legal(db.log + others)
      modifies db
      ensures db.Valid()
      ensures claim.None? ==> err == Some(LeaseLost) && db.rows == old(db.rows) && db.log == old(db.log)
      ensures claim.Some? && Settleable(old(db.rows), claim.value) ==>
        var c := claim.value;
        && err == None && db.log == old(db.log) + [Settle(c, outcome, now)]
        && db.rows == old(db.rows)[c.id := Settled(old(db.rows)[c.id], outcome, now)]
      ensures claim.Some? && !Settleable(old(db.rows), claim.value) ==>
        var c, settle := claim.value, Settle(claim.value, outcome, now);
        var later := Replay(old(db.log) + others);
        && db.log == old(db.log) + [settle] + others + [SettleCancel(c, cancelNow)]
        && CanceledOrLost(later, db.rows, c, cancelNow, err)
    {
      hide Legal, Replay, Tokens;
      if claim.None? {
        return Some(LeaseLost);
      }
      var settle, cancel := Settle(claim.value, outcome, now), SettleCancel(claim.value, cancelNow);
      SingleRow(db.rows, settle, claim.value.id);
      var affected := db.Exec(settle);
      if affected != 1 {
        RefusedVanishes(old(db.log), settle, others);
        db.Interleave(others);
        SingleRow(db.rows, cancel, claim.value.id);
        affected := db.Exec(cancel);
        if affected != 1 {
          return Some(LeaseLost);
        }
      }
      return None;
    }

    method Complete(claim: Option<Claim>, now: int, others: seq<Stmt>) returns (err: Option<TaskError>)
      requires db.Valid() && Legal(db.log + others)
      modifies db
      ensures db.Valid() && old(db.log) <= db.log
      ensures claim.None? ==> err == Some(LeaseLost) && db.rows == old(db.rows)
      ensures claim.Some? ==>
        var c, t, later := claim.value, old(db.rows), Replay(old(db.log) + others);
        if c.id in t && t[c.id].status == Processing
             && t[c.id].leaseToken == c.leaseToken && t[c.id].fencing == c.fencing
             && t[c.id].cancelRequested.None? then
          && err == None
          && db.rows == t[c.id := t[c.id].(status := Completed, leaseToken := "", leaseExpires := None,
               lastFailure := "", completedAt := Some(now), updatedAt := now)]
        else if c.id in later && later[c.id].status == Processing
             && later[c.id].leaseToken == c.leaseToken && later[c.id].fencing == c.fencing
             && later[c.id].cancelRequested.Some? then
          && err == None
          && db.rows == later[c.id := later[c.id].(status := Canceled, leaseToken := "", leaseExpires := None,
               updatedAt := now)]
        else err == Some(LeaseLost) && db.rows == later
    {
      hide Legal, Replay, Tokens;
      err := Finish(claim, Outcome.Complete, now, now, others);
    }

    method Fail(claim: Option<Claim>, cause: Cause, now: int, others: seq<Stmt>) returns (err: Option<TaskError>)
      requires db.Valid() && Legal(db.log + others)
      modifies db
      ensures db.Valid() && old(db.log) <= db.log
      ensures claim.None? ==> err == Some(LeaseLost) && db.rows == old(db.rows)
      ensures claim.Some? ==>
        var c, t, later := claim.value, old(db.rows), Replay(old(db.log) + others);
        if c.id in t && t[c.id].status == Processing
             && t[c.id].leaseToken == c.leaseToken && t[c.id].fencing == c.fencing
             && t[c.id].cancelRequested.None? then
          && err == None
          && db.rows == t[c.id := t[c.id].(status := Failed, leaseToken := "", leaseExpires := None,
               lastFailure := if cause == DeadlineExceeded then "timeout"
                               else if cause == ContextCanceled then "canceled"
                               else if cause == NoError then "" else "job_handler_error",
               failedAt := Some(now), updatedAt := now)]
        else if c.id in later && later[c.id].status == Processing
             && later[c.id].leaseToken == c.leaseToken && later[c.id].fencing == c.fencing
             && later[c.id].cancelRequested.Some? then
          && err == None
          && db.rows == later[c.id := later[c.id].(status := Canceled, leaseToken := "", leaseExpires := None,
               updatedAt := now)]
        else err == Some(LeaseLost) && db.rows == later
    {
      hide Legal, Replay, Tokens;
      err := Finish(claim, Outcome.Fail(FailureCode(cause)), now, now, others);
    }

    method Retry(claim: Option<Claim>, payload: Payload, availableAt: int, cause: Cause, now: int, cancelNow: int,
                 others: seq<Stmt>) returns (err: Option<TaskError>)
      requires db.Valid() && Legal(db.log + others)
      modifies db
      ensures db.Valid() && old(db.log) <= db.log
      ensures claim.None? ==> err == Some(LeaseLost) && db.rows == old(db.rows)
      ensures claim.Some? ==>
        var c, t, later := claim.value, old(db.rows), Replay(old(db.log) + others);
        if c.id in t && t[c.id].status == Processing
             && t[c.id].leaseToken == c.leaseToken && t[c.id].fencing == c.fencing
             && t[c.id].cancelRequested.None? then
          && err == None
          && db.rows == t[c.id := t[c.id].(status := Pending, payload := payload, availableAt := availableAt,
               leaseToken := "", leaseExpires := None,
               lastFailure := if cause == DeadlineExceeded then "timeout"
                               else if cause == ContextCanceled then "canceled"
                               else if cause == NoError then "" else "job_handler_error",
               updatedAt := now)]
        else if c.id in later && later[c.id].status == Processing
             && later[c.id].leaseToken == c.leaseToken && later[c.id].fencing == c.fencing
             && later[c.id].cancelRequested.Some? then
          && err == None
          && db.rows == later[c.id := later[c.id].(status := Canceled, leaseToken := "", leaseExpires := None,
               updatedAt := cancelNow)]
        else err == Some(LeaseLost) && db.rows == later
    {
      hide Legal, Replay, Tokens;
      err := Finish(claim, Outcome.Retry(payload, availableAt, FailureCode(cause)), now, cancelNow, others);
    }

    /** Reads the cancel flag, then extends the lease; the two clock readings of the update are independent. */
    method Heartbeat(claim: Option<Claim>, leaseDuration: int, leaseNow: int, now: int, others: seq<Stmt>)
      returns (canceled: bool, err: Option<TaskError>)
      requires db.Valid() && Legal(db.log + others)
      modifies db
      ensures db.Valid() && old(db.log) <= db.log
      ensures claim.None? ==> err == Some(LeaseLost) && !canceled && db.rows == old(db.rows)
      ensures claim.Some? ==>
        var c, t, later := claim.value, old(db.rows), Replay(old(db.log) + others);
        if !(c.id in t && t[c.id].status == Processing
             && t[c.id].leaseToken == c.leaseToken && t[c.id].fencing == c.fencing) then
          err == Some(LeaseLost) && !canceled && db.rows == t
        else if t[c.id].cancelRequested.Some? then
          err == None && canceled && db.rows == t
        else if c.id in later && later[c.id].status == Processing
             && later[c.id].leaseToken == c.leaseToken && later[c.id].fencing == c.fencing then
          && err == None && !canceled
          && db.rows
             == later[c.id := later[c.id].(leaseExpires := Some(leaseNow + leaseDuration), updatedAt := now)]
        else err == Some(LeaseLost) && !canceled && db.rows == later
    {
      hide Legal, Replay, Tokens;
      if claim.None? {
        return false, Some(LeaseLost);
      }
      var c := claim.value;
      if !HeldBy(db.rows, c) {
        return false, Some(LeaseLost);
      }
      if db.rows[c.id].cancelRequested.Some? {
        return true, None;
      }
      db.Interleave(others);
      var extend := Extend(c, leaseNow + leaseDuration, now);
      SingleRow(db.rows, extend, c.id);
      var affected := db.Exec(extend);
      if affected != 1 {
        return false, Some(LeaseLost);
      }
      return false, None;
    }

    method Cancel(id: TaskId, now: int) returns (err: Option<TaskError>)
      requires db.Valid()
      modifies db
      ensures db.Valid() && old(db.log) <= db.log
      ensures err == if id in old(db.rows) && old(db.rows)[id].status in {Pending, Processing} then None
                     else Some(TaskNotFound)
      ensures err == None ==>
        var row := old(db.rows)[id];
        db.rows == old(db.rows)[id := if row.status == Pending
                                      then row.(status := Canceled, cancelRequested := Some(now), updatedAt := now)
                                      else row.(cancelRequested := Some(now), updatedAt := now)]
      ensures err != None ==> db.rows == old(db.rows)
    {
      SingleRow(db.rows, Stmt.Cancel(id, now), id);
      var affected := db.Exec(Stmt.Cancel(id, now));
      if affected == 0 {
        return Some(TaskNotFound);
      }
      return None;
    }

    /** Revives a failed row; otherwise a second look at the table decides between the two errors. */
    method RetryFailed(id: TaskId, now: int, others: seq<Stmt>) returns (err: Option<TaskError>)
      requires db.Valid() && Legal(db.log + others)
      modifies db
      ensures db.Valid() && old(db.log) <= db.log
      ensures err == None <==> id in old(db.rows) && old(db.rows)[id].status == Failed
      ensures err == None ==>
        db.rows == old(db.rows)[id := old(db.rows)[id].(status := Pending, attempts := 0, availableAt := now,
          failedAt := None, leaseToken := "", leaseExpires := None, updatedAt := now)]
      ensures err != None ==>
        && db.rows == Replay(old(db.log) + others)
        && err == Some(if id in db.rows then TaskNotRetryable else TaskNotFound)
    {
      hide Legal, Replay, Tokens;
      SingleRow(db.rows, Stmt.RetryFailed(id, now), id);
      var affected := db.Exec(Stmt.RetryFailed(id, now));
      if affected == 1 {
        return None;
      }
      RefusedVanishes(old(db.log), Stmt.RetryFailed(id, now), others);
      db.Interleave(others);
      if id !in db.rows {
        return Some(TaskNotFound);
      }
      return Some(TaskNotRetryable);
    }

    /** Deletes finished rows that no other transaction has locked, oldest first, at most batch of them. */
    method PruneFinished(before: int, batch: int, locked: set<TaskId>) returns (r: Result<nat, TaskError>)
      requires db.Valid()
      modifies db
      ensures db.Valid() && old(db.log) <= db.log
      ensures r.Err? <==> batch < 1 || batch > 10000
      ensures r.Err? ==> r.error == InvalidBatch && db.rows == old(db.rows)
      ensures r.Ok? ==>
        var t, gone := old(db.rows), old(db.rows).Keys - db.rows.Keys;
        && r.value == |gone| <= batch && db.rows == t - gone
        && (forall x :: x in gone ==>
              x !in locked && t[x].status in {Completed, Failed, Canceled} && t[x].updatedAt < before)
        && (forall y :: y in db.rows && y !in locked && t[y].status in {Completed, Failed, Canceled}
                        && t[y].updatedAt < before ==>
              && |gone| == batch
              && forall x :: x in gone ==>
                   t[x].updatedAt < t[y].updatedAt || (t[x].updatedAt == t[y].updatedAt && x < y))
    {
      hide Legal, Replay, Tokens, Removed, Apply, Affected, Prunable;
      if batch < 1 || batch > MAX_TASK_PRUNE_BATCH {
        return Err(InvalidBatch);
      }
      var prune := Prune(before, batch, locked);
      PruneOutcome(db.rows, prune);
      PruneCount(db.rows, prune);
      KeysAfterDelete(db.rows, Removed(db.rows, prune));
      OldestGoFirst(db.rows, prune);
      var affected := db.Exec(prune);
      return Ok(affected);
    }

    method Clear(queue: string)
      requires db.Valid()
      modifies db
      ensures db.Valid() && old(db.log) <= db.log
      ensures db.rows == map id | id in old(db.rows) && old(db.rows)[id].queue != queue :: old(db.rows)[id]
    {
      var _ := db.Exec(Stmt.Clear(queue));
    }

    method Close()
      modifies this
      ensures closed
    {
      closed := true;
    }
  }

  // ------------------------------------------------------------ what updated_at means for finished rows

  function ClockOf(s: Stmt): int {
    match s
    case Insert(row) => row.updatedAt
    case Prune(before, _, _) => before
    case Clear(_) => 0
    case _ => s.now
  }

  /** The statement at n finished the row: it was live before, and carries that statement's clock after. */
  predicate FinishedBy(log: Log, n: nat, id: TaskId, r: Row)
    requires n < |log|
  {
    && id in At(log, n) && !Finished(At(log, n)[id].status)
    && id in At(log, n + 1) && At(log, n + 1)[id] == r && r.updatedAt == ClockOf(log[n])
  }

  lemma FinishStep(id: TaskId, r: Row, s: Stmt)
    requires RowInv(r) && Finished(RowAfter(id, r, s).status)
    requires s.Take? && Hits(id, r, s) ==> Claimable(r, s.queue, s.now)
    ensures Finished(r.status) ==> RowAfter(id, r, s) == r
    ensures !Finished(r.status) ==> RowAfter(id, r, s).updatedAt == ClockOf(s)
  {
  }

  /** A finished row's updated_at is the clock reading at which it finished, and nothing has touched it since. */
  lemma {:induction false} FinishedRowsKeepTheirTime(log: Log, k: nat, id: TaskId)
    requires Legal(log) && k <= |log| && id in At(log, k) && Finished(At(log, k)[id].status)
    ensures exists n :: 0 <= n < k && FinishedBy(log, n, id, At(log, k)[id])
    decreases k
  {
    assert k > 0;
    Unroll(log, k - 1);
    assert id in At(log, k - 1);
    LivesStep(log, id, k - 1);
    FinishStep(id, At(log, k - 1)[id], log[k - 1]);
    if Finished(At(log, k - 1)[id].status) {
      FinishedRowsKeepTheirTime(log, k - 1, id);
    } else {
      assert FinishedBy(log, k - 1, id, At(log, k)[id]);
    }
  }
}
