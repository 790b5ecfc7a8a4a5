/**
  The workflow_tasks table and the SQL statements that the durable queue driver runs on it.

  Every statement is an atomic step on a table. All but INSERT and DELETE act on each row on its own:
  a row that the WHERE clause hits is rewritten, every other row is kept.
 */
module Tasks {
  import opened Common

  /** A uuid, compared by PostgreSQL as a 128-bit number. */
  type TaskId = nat

  datatype Status = Pending | Processing | Completed | Failed | Canceled

  /** The decoded job envelope; trace stands for the fields the driver never looks at. */
  datatype Envelope = Envelope(id: Option<TaskId>, jobType: string, data: string, maxRetries: int,
                               idempotencyKey: string, trace: string)

  /** The bytes handed to the driver, by whether they decode to an envelope. */
  datatype Payload = Undecodable(raw: string) | Encoded(envelope: Envelope)

  datatype Row = Row(
    id: TaskId, queue: string, key: Option<string>, payload: Payload, hash: string,
    status: Status, attempts: nat, maxAttempts: nat, availableAt: int,
    leaseToken: string, leaseExpires: Option<int>, fencing: nat,
    cancelRequested: Option<int>, completedAt: Option<int>, failedAt: Option<int>,
    lastFailure: string, createdAt: int, updatedAt: int)

  type Table = map<TaskId, Row>

  /** One fenced ownership interval of a task, as handed to a worker. */
  datatype Claim = Claim(id: TaskId, payload: Payload, leaseToken: string, fencing: nat, attempts: nat)

  /** What the holder of a claim reports. */
  datatype Outcome =
    | Complete
    | Fail(code: string)
    | Retry(payload: Payload, availableAt: int, code: string)

  /**
    The statements. A recovery update takes effect when its transaction commits, on the rows it found and locked
    when it ran; rows that match its WHERE clause only since then are not among them.
   */
  datatype Stmt =
    | Insert(row: Row)
    | RecoverCanceled(queue: string, now: int, rows: set<TaskId>)
    | RecoverExhausted(queue: string, now: int, rows: set<TaskId>)
    | Take(queue: string, now: int, id: TaskId, fencing: nat, token: string, expires: int)
    | Settle(claim: Claim, outcome: Outcome, now: int)
    | SettleCancel(claim: Claim, now: int)
    | Extend(claim: Claim, expires: int, now: int)
    | Cancel(id: TaskId, now: int)
    | RetryFailed(id: TaskId, now: int)
    | Prune(before: int, batch: nat, locked: set<TaskId>)
    | Clear(queue: string)

  predicate Expired(r: Row, now: int) {
    r.leaseExpires.Some? && r.leaseExpires.value <= now
  }

  /** The WHERE clause shared by every call of a claim holder. */
  predicate Holds(r: Row, c: Claim) {
    r.status == Processing && r.leaseToken == c.leaseToken && r.fencing == c.fencing
  }

  predicate HeldBy(t: Table, c: Claim) {
    c.id in t && Holds(t[c.id], c)
  }

  predicate Finished(s: Status) {
    s == Completed || s == Failed || s == Canceled
  }

  /** The WHERE clause of the locked select inside a claim transaction. */
  predicate Claimable(r: Row, queue: string, now: int) {
    && r.queue == queue
    && r.cancelRequested.None?
    && r.attempts < r.maxAttempts
    && ((r.status == Pending && r.availableAt <= now) || (r.status == Processing && Expired(r, now)))
  }

  /** A row as insert builds it. */
  predicate Newborn(r: Row) {
    && r.status == Pending && r.attempts == 0 && r.maxAttempts >= 1
    && r.leaseToken == "" && r.leaseExpires.None? && r.fencing == 0
    && r.cancelRequested.None? && r.completedAt.None? && r.failedAt.None? && r.lastFailure == ""
  }

  // ------------------------------------------------------------ rows updated in place

  predicate Hits(id: TaskId, r: Row, s: Stmt) {
    match s
    case RecoverCanceled(queue, now, rows) =>
      id in rows && r.queue == queue && r.status == Processing && Expired(r, now) && r.cancelRequested.Some?
    case RecoverExhausted(queue, now, rows) =>
      id in rows && r.queue == queue && r.status == Processing && Expired(r, now) && r.attempts >= r.maxAttempts
    case Take(_, _, target, fencing, _, _) => id == target && r.fencing == fencing
    case Settle(c, _, _) => id == c.id && Holds(r, c) && r.cancelRequested.None?
    case SettleCancel(c, _) => id == c.id && Holds(r, c) && r.cancelRequested.Some?
    case Extend(c, _, _) => id == c.id && Holds(r, c)
    case Cancel(target, _) => id == target && (r.status == Pending || r.status == Processing)
    case RetryFailed(target, _) => id == target && r.status == Failed
    case _ => false
  }

  function Released(r: Row, status: Status, now: int): Row {
    r.(status := status, leaseToken := "", leaseExpires := None, updatedAt := now)
  }

  function Settled(r: Row, outcome: Outcome, now: int): Row {
    match outcome
    case Complete => Released(r, Completed, now).(lastFailure := "", completedAt := Some(now))
    case Fail(code) => Released(r, Failed, now).(lastFailure := code, failedAt := Some(now))
    case Retry(payload, availableAt, code) =>
      Released(r, Pending, now).(payload := payload, availableAt := availableAt, lastFailure := code)
  }

  function Taken(r: Row, token: string, expires: int, now: int): Row {
    r.(status := Processing, attempts := r.attempts + 1, leaseToken := token, leaseExpires := Some(expires),
       fencing := r.fencing + 1, updatedAt := now)
  }

  function Revived(r: Row, now: int): Row {
    Released(r, Pending, now).(attempts := 0, availableAt := now, failedAt := None)
  }

  function CancelMarked(r: Row, now: int): Row {
    r.(cancelRequested := Some(now), status := if r.status == Pending then Canceled else r.status, updatedAt := now)
  }

  function Updated(r: Row, s: Stmt): Row {
    match s
    case RecoverCanceled(_, now, _) => Released(r, Canceled, now)
    case RecoverExhausted(_, now, _) =>
      Released(r, Failed, now).(failedAt := Some(now), lastFailure := "lease_expired")
    case Take(_, now, _, _, token, expires) => Taken(r, token, expires, now)
    case Settle(_, outcome, now) => Settled(r, outcome, now)
    case SettleCancel(_, now) => Released(r, Canceled, now)
    case Extend(_, expires, now) => r.(leaseExpires := Some(expires), updatedAt := now)
    case Cancel(_, now) => CancelMarked(r, now)
    case RetryFailed(_, now) => Revived(r, now)
    case _ => r
  }

  function RowAfter(id: TaskId, r: Row, s: Stmt): Row {
    if Hits(id, r, s) then Updated(r, s) else r
  }

  // ------------------------------------------------------------ ORDER BY ... LIMIT

  /** The sort key of a row; rows with equal keys are ordered by id. */
  type Rank = (int, int)

  predicate Before(keys: map<TaskId, Rank>, a: TaskId, b: TaskId)
    requires a in keys && b in keys
  {
    || keys[a].0 < keys[b].0
    || (keys[a].0 == keys[b].0 && keys[a].1 < keys[b].1)
    || (keys[a] == keys[b] && a < b)
  }

  predicate IsFirst(keys: map<TaskId, Rank>, ids: set<TaskId>, m: TaskId)
    requires ids <= keys.Keys
  {
    m in ids && forall x :: x in ids && x != m ==> Before(keys, m, x)
  }

  lemma FirstExists(keys: map<TaskId, Rank>, ids: set<TaskId>)
    requires ids <= keys.Keys && ids != {}
    ensures exists m :: IsFirst(keys, ids, m)
  {
    var x :| x in ids;
    if ids == {x} {
      assert IsFirst(keys, ids, x);
    } else {
      var rest := ids - {x};
      FirstExists(keys, rest);
      var m :| IsFirst(keys, rest, m);
      var best := if Before(keys, m, x) then m else x;
      forall y | y in ids && y != best ensures Before(keys, best, y) {
        assert y == x || y in rest;
      }
      assert IsFirst(keys, ids, best);
    }
  }

  /** ORDER BY rank, id LIMIT 1. */
  function First(keys: map<TaskId, Rank>, ids: set<TaskId>): (m: TaskId)
    requires ids <= keys.Keys && ids != {}
    ensures IsFirst(keys, ids, m)
  {
    FirstExists(keys, ids);
    var m :| m in ids && IsFirst(keys, ids, m);
    m
  }

  /** ORDER BY rank, id LIMIT n, as a set. */
  function FirstN(keys: map<TaskId, Rank>, ids: set<TaskId>, n: nat): (chosen: set<TaskId>)
    requires ids <= keys.Keys
    ensures chosen <= ids
    ensures |chosen| == if n <= |ids| then n else |ids|
    ensures forall x, y :: x in chosen && y in ids - chosen ==> Before(keys, x, y)
    decreases n
  {
    if n == 0 || ids == {} then {}
    else
      var m := First(keys, ids);
      {m} + FirstN(keys, ids - {m}, n - 1)
  }

  function ClaimRanks(t: Table): (keys: map<TaskId, Rank>)
    ensures keys.Keys == t.Keys
  {
    map id | id in t :: (t[id].availableAt, t[id].createdAt)
  }

  function PruneRanks(t: Table): (keys: map<TaskId, Rank>)
    ensures keys.Keys == t.Keys
  {
    map id | id in t :: (t[id].updatedAt, 0)
  }

  function ClaimableIds(t: Table, queue: string, now: int, locked: set<TaskId>): set<TaskId> {
    set id | id in t && id !in locked && Claimable(t[id], queue, now)
  }

  /** The locked select of a claim: rows locked by other transactions are skipped. */
  function Select(t: Table, queue: string, now: int, locked: set<TaskId>): (pick: Option<TaskId>)
    ensures pick.None? <==> ClaimableIds(t, queue, now, locked) == {}
    ensures pick.Some? ==> IsFirst(ClaimRanks(t), ClaimableIds(t, queue, now, locked), pick.value)
  {
    var ids := ClaimableIds(t, queue, now, locked);
    if ids == {} then None else Some(First(ClaimRanks(t), ids))
  }

  // ------------------------------------------------------------ deletion, insertion, execution

  function Prunable(t: Table, before: int, locked: set<TaskId>): set<TaskId> {
    set id | id in t && id !in locked && Finished(t[id].status) && t[id].updatedAt < before
  }

  function Removed(t: Table, s: Stmt): (gone: set<TaskId>)
    ensures gone <= t.Keys
  {
    match s
    case Prune(before, batch, locked) => FirstN(PruneRanks(t), Prunable(t, before, locked), batch)
    case Clear(queue) => set id | id in t && t[id].queue == queue
    case _ => {}
  }

  /** The primary key and the unique (queue, idempotency_key) index admit the row. */
  predicate Admits(t: Table, r: Row) {
    && r.id !in t
    && (r.key.Some? ==> forall id :: id in t ==> !(t[id].queue == r.queue && t[id].key == r.key))
  }

  function Apply(t: Table, s: Stmt): Table {
    if s.Insert? then
      if Admits(t, s.row) then t[s.row.id := s.row] else t
    else
      map id | id in t && id !in Removed(t, s) :: RowAfter(id, t[id], s)
  }

  /** The rows that RowsAffected counts. */
  function Affected(t: Table, s: Stmt): (ids: set<TaskId>)
    ensures s.Insert? || ids <= t.Keys
  {
    if s.Insert? then if Admits(t, s.row) then {s.row.id} else {}
    else (set id | id in t && Hits(id, t[id], s)) + Removed(t, s)
  }

  lemma UntouchedTable(t: Table, s: Stmt)
    requires Affected(t, s) == {}
    ensures Apply(t, s) == t
  {
    if !s.Insert? {
      forall id | id in t ensures !Hits(id, t[id], s) && id !in Removed(t, s) {
        assert id !in Affected(t, s);
      }
    }
  }
}
