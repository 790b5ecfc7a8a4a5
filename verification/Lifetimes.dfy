/** What happens to one row from insertion to deletion: cancellation, idempotency keys, attempt budgets. */
module Lifetimes {
  import opened Common
  import opened Tasks
  import opened Runs
  import opened Fencing

  /** The row with this id is not deleted between positions i and k. */
  predicate Lives(log: Log, id: TaskId, i: nat, k: nat)
    requires k <= |log|
  {
    i <= k && forall n :: i <= n <= k ==> id in At(log, n)
  }

  lemma LivesStep(log: Log, id: TaskId, n: nat)
    requires Legal(log) && n < |log| && id in At(log, n) && id in At(log, n + 1)
    ensures At(log, n + 1)[id] == RowAfter(id, At(log, n)[id], log[n])
    ensures log[n].Take? && log[n].id == id ==> Hits(id, At(log, n)[id], log[n])
    ensures log[n].Take? && Hits(id, At(log, n)[id], log[n]) ==> Claimable(At(log, n)[id], log[n].queue, log[n].now)
    ensures RowInv(At(log, n)[id])
  {
    hide Legal, Replay, Tokens;
    Unroll(log, n);
    InvAt(log, n);
  }

  // ------------------------------------------------------------ cancellation

  lemma MarkedRowStep(id: TaskId, r: Row, s: Stmt)
    requires RowInv(r) && r.cancelRequested.Some?
    requires s.Take? && Hits(id, r, s) ==> Claimable(r, s.queue, s.now)
    ensures RowAfter(id, r, s).cancelRequested.Some? && RowAfter(id, r, s).fencing == r.fencing
    ensures !(s.Take? && Hits(id, r, s))
  {
  }

  /** In every interleaving, a row with a cancel request is never claimed again and never completes. */
  lemma {:induction false} CancelRequestSticks(log: Log, id: TaskId, i: nat, k: nat)
    requires Legal(log) && k <= |log| && Lives(log, id, i, k)
    requires At(log, i)[id].cancelRequested.Some?
    ensures At(log, k)[id].cancelRequested.Some? && At(log, k)[id].status != Completed
    ensures At(log, k)[id].fencing == At(log, i)[id].fencing
    decreases k
  {
    hide Legal, Replay, Tokens;
    InvAt(log, k);
    if i < k {
      assert Lives(log, id, i, k - 1);
      CancelRequestSticks(log, id, i, k - 1);
      LivesStep(log, id, k - 1);
      MarkedRowStep(id, At(log, k - 1)[id], log[k - 1]);
    }
  }

  lemma CanceledTaskIsNotClaimed(log: Log, id: TaskId, i: nat, n: nat)
    requires Legal(log) && n < |log| && Lives(log, id, i, n)
    requires At(log, i)[id].cancelRequested.Some?
    ensures !(log[n].Take? && log[n].id == id)
  {
    hide Legal, Replay, Tokens;
    CancelRequestSticks(log, id, i, n);
    Unroll(log, n);
  }

  /** Canceled is absorbing: no statement but deletion touches the row again. */
  lemma {:induction false} CanceledIsFinal(log: Log, id: TaskId, i: nat, k: nat)
    requires Legal(log) && k <= |log| && Lives(log, id, i, k)
    requires At(log, i)[id].status == Canceled
    ensures At(log, k)[id] == At(log, i)[id]
    decreases k
  {
    hide Legal, Replay, Tokens;
    if i < k {
      assert Lives(log, id, i, k - 1);
      CanceledIsFinal(log, id, i, k - 1);
      LivesStep(log, id, k - 1);
    }
  }

  /** A row with a cancel request is still being worked on or is canceled. */
  predicate Honored(r: Row) {
    r.cancelRequested.Some? ==> r.status in {Processing, Canceled}
  }

  predicate CancellationsHonored(t: Table) {
    forall id :: id in t ==> Honored(t[id])
  }

  /** The second recovery update of a claim fails this row although its cancellation was requested. */
  predicate FailsMarked(id: TaskId, r: Row, s: Stmt) {
    s.RecoverExhausted? && r.cancelRequested.Some? && Hits(id, r, s)
  }

  predicate SparesMarked(t: Table, s: Stmt) {
    forall id :: id in t ==> !FailsMarked(id, t[id], s)
  }

  /** Only that statement can break the promise, and it does so for exactly the marked rows that it fails. */
  lemma HonoredRowStep(id: TaskId, r: Row, s: Stmt)
    requires RowInv(r) && Honored(r)
    requires s.Take? && Hits(id, r, s) ==> Claimable(r, s.queue, s.now)
    ensures Honored(RowAfter(id, r, s)) <==> !FailsMarked(id, r, s)
  {
  }

  lemma StepHonorsExactly(t: Table, used: set<string>, s: Stmt)
    requires TableInv(t, used) && LegalStmt(t, used, s) && CancellationsHonored(t)
    ensures CancellationsHonored(Apply(t, s)) <==> SparesMarked(t, s)
  {
    if !s.Insert? {
      var u := Apply(t, s);
      forall id | id in t ensures Honored(RowAfter(id, t[id], s)) <==> !FailsMarked(id, t[id], s) {
        HonoredRowStep(id, t[id], s);
      }
      assert forall id :: id in u ==> u[id] == RowAfter(id, t[id], s);
      assert s.RecoverExhausted? ==> u.Keys == t.Keys;
    }
  }

  /** Every table of the run honors its cancellations. */
  predicate AlwaysHonored(log: Log) {
    forall k :: 0 <= k <= |log| ==> CancellationsHonored(At(log, k))
  }

  /** No second recovery update of the run fails a row whose cancellation was requested. */
  predicate AllSpareMarked(log: Log) {
    forall n :: 0 <= n < |log| ==> SparesMarked(At(log, n), log[n])
  }

  /** A run honors every cancellation exactly when no recovery update of it fails a marked row. */
  lemma HonoredExactlyWhenSpared(log: Log)
    requires Legal(log)
    ensures AlwaysHonored(log) <==> AllSpareMarked(log)
  {
    hide Legal, Replay, Tokens;
    if AlwaysHonored(log) {
      forall n | 0 <= n < |log| ensures SparesMarked(At(log, n), log[n]) {
        Unroll(log, n);
        InvAt(log, n);
        assert CancellationsHonored(At(log, n)) && CancellationsHonored(At(log, n + 1));
        StepHonorsExactly(At(log, n), Tokens(log[..n]), log[n]);
      }
    }
    if AllSpareMarked(log) {
      forall k | 0 <= k <= |log| ensures CancellationsHonored(At(log, k)) {
        SparedMeansHonored(log, k);
      }
    }
  }

  lemma {:induction false} SparedMeansHonored(log: Log, k: nat)
    requires Legal(log) && k <= |log| && AllSpareMarked(log)
    ensures CancellationsHonored(At(log, k))
    decreases k
  {
    if k > 0 {
      SparedMeansHonored(log, k - 1);
      Unroll(log, k - 1);
      InvAt(log, k - 1);
      StepHonorsExactly(At(log, k - 1), Tokens(log[..k - 1]), log[k - 1]);
    }
  }

  /** The same for one row: it is processing or canceled throughout. */
  predicate StaysHonored(log: Log, id: TaskId, i: nat, k: nat)
    requires k <= |log| && Lives(log, id, i, k)
  {
    forall j :: i <= j <= k ==> At(log, j)[id].status in {Processing, Canceled}
  }

  predicate NeverFailedBy(log: Log, id: TaskId, i: nat, k: nat)
    requires k <= |log| && Lives(log, id, i, k)
  {
    forall n :: i <= n < k ==> !(log[n].RecoverExhausted? && Hits(id, At(log, n)[id], log[n]))
  }

  lemma FollowsCancelStep(log: Log, id: TaskId, n: nat)
    requires Legal(log) && n < |log| && id in At(log, n) && id in At(log, n + 1)
    requires At(log, n)[id].cancelRequested.Some? && At(log, n)[id].status in {Processing, Canceled}
    ensures At(log, n + 1)[id].cancelRequested.Some?
    ensures At(log, n + 1)[id].status in {Processing, Canceled}
      <==> !(log[n].RecoverExhausted? && Hits(id, At(log, n)[id], log[n]))
  {
    hide Legal, Replay, Tokens;
    LivesStep(log, id, n);
    MarkedRowStep(id, At(log, n)[id], log[n]);
    HonoredRowStep(id, At(log, n)[id], log[n]);
  }

  /**
    From an accepted cancel on, a row is processing until it is canceled for good, exactly when no recovery update
    fails it: whatever else happens, nothing requeues, completes or fails it.
   */
  lemma {:induction false} OnlyCanceledFollowsCancel(log: Log, id: TaskId, i: nat, k: nat)
    requires Legal(log) && k <= |log| && Lives(log, id, i, k)
    requires At(log, i)[id].cancelRequested.Some? && At(log, i)[id].status in {Processing, Canceled}
    ensures StaysHonored(log, id, i, k) <==> NeverFailedBy(log, id, i, k)
    decreases k
  {
    hide Legal, Replay, Tokens;
    if i < k {
      assert Lives(log, id, i, k - 1);
      OnlyCanceledFollowsCancel(log, id, i, k - 1);
      CancelRequestSticks(log, id, i, k - 1);
      HonorsOneMore(log, id, i, k - 1);
    }
  }

  lemma HonorsOneMore(log: Log, id: TaskId, i: nat, n: nat)
    requires Legal(log) && i <= n < |log| && Lives(log, id, i, n) && Lives(log, id, i, n + 1)
    requires At(log, n)[id].cancelRequested.Some?
    requires StaysHonored(log, id, i, n) <==> NeverFailedBy(log, id, i, n)
    ensures StaysHonored(log, id, i, n + 1) <==> NeverFailedBy(log, id, i, n + 1)
  {
    hide Legal, Replay, Tokens;
    assert StaysHonored(log, id, i, n + 1) ==> StaysHonored(log, id, i, n);
    assert NeverFailedBy(log, id, i, n + 1) ==> NeverFailedBy(log, id, i, n);
    if StaysHonored(log, id, i, n) {
      assert At(log, n)[id].status in {Processing, Canceled};
      FollowsCancelStep(log, id, n);
    }
  }

  lemma FirstRecoveryClearsTheWay(t: Table, queue: string, now: int, rows: set<TaskId>)
    ensures SparesMarked(Apply(t, RecoverCanceled(queue, now, rows)), RecoverExhausted(queue, now, rows))
  {
  }

  /** The two recovery updates of one claim: the first met every row there was that the second may meet. */
  predicate Brackets(log: Log, m: nat, n: nat) {
    && m < n < |log| && log[n].RecoverExhausted? && log[m].RecoverCanceled?
    && log[m].queue == log[n].queue && log[m].now == log[n].now
    && forall id :: id in log[n].rows && id in At(log, m) ==> id in log[m].rows
  }

  /** Every second recovery update follows a first one; other statements may come between them. */
  predicate RecoversInOrder(log: Log) {
    forall n :: 0 <= n < |log| && log[n].RecoverExhausted? ==> exists m :: 0 <= m < n && Brackets(log, m, n)
  }

  /** A cancel accepted at j, or a heartbeat accepted on a marked row, which may set an earlier expiry. */
  predicate MarksLate(log: Log, j: nat, k: nat, id: TaskId) {
    && j < k <= |log| && Lives(log, id, j, k) && (log[j].Cancel? || log[j].Extend?)
    && Hits(id, At(log, j)[id], log[j]) && At(log, j + 1)[id].cancelRequested.Some?
  }

  /** Such a statement is an accepted cancel of the row, or a heartbeat on it while it is marked. */
  lemma LateMarksAre(log: Log, j: nat, k: nat, id: TaskId)
    requires MarksLate(log, j, k, id)
    ensures
      var row := At(log, j)[id];
      || (log[j].Cancel? && log[j].id == id && row.status in {Pending, Processing})
      || (log[j].Extend? && log[j].claim.id == id && row.status == Processing)
    ensures At(log, j + 1)[id].cancelRequested != None
  {
  }

  /** The WHERE clause of the first recovery update. */
  predicate MarkedAndLapsed(r: Row, queue: string, now: int) {
    r.queue == queue && r.status == Processing && Expired(r, now) && r.cancelRequested.Some?
  }

  lemma LapsingStep(id: TaskId, r: Row, s: Stmt, queue: string, now: int)
    requires RowInv(r) && (s.Take? && Hits(id, r, s) ==> Claimable(r, s.queue, s.now))
    requires !MarkedAndLapsed(r, queue, now) && MarkedAndLapsed(RowAfter(id, r, s), queue, now)
    ensures (s.Cancel? || s.Extend?) && Hits(id, r, s)
  {
  }

  lemma {:induction false} LateMarkExists(log: Log, i: nat, k: nat, id: TaskId, queue: string, now: int)
    requires Legal(log) && i <= k <= |log|
    requires id in At(log, i) ==> !MarkedAndLapsed(At(log, i)[id], queue, now)
    requires id in At(log, k) && MarkedAndLapsed(At(log, k)[id], queue, now)
    ensures exists j :: i <= j < k && MarksLate(log, j, k, id)
    decreases k
  {
    hide Legal, Replay, Tokens;
    assert i < k;
    Unroll(log, k - 1);
    if id in At(log, k - 1) && MarkedAndLapsed(At(log, k - 1)[id], queue, now) {
      LateMarkExists(log, i, k - 1, id, queue, now);
      var j :| i <= j < k - 1 && MarksLate(log, j, k - 1, id);
      assert MarksLate(log, j, k, id);
    } else {
      assert id in At(log, k - 1);
      LivesStep(log, id, k - 1);
      LapsingStep(id, At(log, k - 1)[id], log[k - 1], queue, now);
      assert MarksLate(log, k - 1, k, id);
    }
  }

  lemma LateMarkStays(log: Log, j: nat, k: nat, id: TaskId)
    requires Legal(log) && MarksLate(log, j, k, id)
    ensures At(log, k)[id].cancelRequested.Some?
  {
    hide Legal, Replay, Tokens;
    assert Lives(log, id, j + 1, k);
    CancelRequestSticks(log, id, j + 1, k);
  }

  /** The second update of a claim fails a marked row exactly if the row was marked after the first one. */
  lemma FailsMarkedExactly(log: Log, m: nat, n: nat, id: TaskId)
    requires Legal(log) && Brackets(log, m, n) && id in At(log, n)
    ensures FailsMarked(id, At(log, n)[id], log[n])
      <==> Hits(id, At(log, n)[id], log[n]) && exists j :: m < j < n && MarksLate(log, j, n, id)
  {
    hide Legal, Replay, Tokens;
    var r := At(log, n)[id];
    if FailsMarked(id, r, log[n]) {
      Unroll(log, m);
      LateMarkExists(log, m + 1, n, id, log[n].queue, log[n].now);
    }
    forall j | m < j < n && MarksLate(log, j, n, id) ensures r.cancelRequested.Some? {
      LateMarkStays(log, j, n, id);
    }
  }

  /** Between the two recovery updates of a claim no row is marked that the second one then fails. */
  predicate NoneMarkedBetween(log: Log) {
    forall m, n, j, id :: 0 <= m < j < n < |log| && Brackets(log, m, n) && id in At(log, n) ==>
      !(Hits(id, At(log, n)[id], log[n]) && MarksLate(log, j, n, id))
  }

  /**
    No run of claims fails, completes or requeues a row with a cancel request exactly when none of the rows that
    their second recovery updates fail was marked between the two updates of the claim.
   */
  lemma CancellationWins(log: Log)
    requires Legal(log) && RecoversInOrder(log)
    ensures AlwaysHonored(log) <==> NoneMarkedBetween(log)
  {
    hide Legal, Replay, Tokens;
    HonoredExactlyWhenSpared(log);
    if NoneMarkedBetween(log) {
      forall n, id | 0 <= n < |log| && id in At(log, n) ensures !FailsMarked(id, At(log, n)[id], log[n]) {
        if log[n].RecoverExhausted? {
          var m :| 0 <= m < n && Brackets(log, m, n);
          FailsMarkedExactly(log, m, n, id);
        }
      }
    }
    if AllSpareMarked(log) {
      forall m, n, j, id | 0 <= m < j < n < |log| && Brackets(log, m, n) && id in At(log, n)
        ensures !(Hits(id, At(log, n)[id], log[n]) && MarksLate(log, j, n, id))
      {
        assert SparesMarked(At(log, n), log[n]);
        FailsMarkedExactly(log, m, n, id);
      }
    }
  }

  predicate MarkedWith(t: Table, id: TaskId, status: Status) {
    id in t && t[id].cancelRequested.Some? && t[id].status == status
  }

  /** A claimed row whose attempts are used up and whose lease ends at 1. */
  lemma ExhaustedRun(row: Row) returns (log: Log)
    requires Newborn(row) && row.maxAttempts == 1 && row.availableAt <= 0
    ensures Legal(log) && Replay(log) == map[row.id := Taken(row, "a", 1, 0)]
  {
    log := InsertAndTake([], row, "a");
  }

  /**
    The condition is needed. The transaction runs at PostgreSQL's default isolation, where a cancel may
    commit between the two recovery updates; the task then fails.
   */
  lemma CancelBetweenRecoveriesIsLost(row: Row) returns (log: Log)
    requires Newborn(row) && row.maxAttempts == 1 && row.availableAt <= 0
    ensures Legal(log) && MarkedWith(Replay(log), row.id, Failed)
    ensures exists r :: Replay(log) == map[row.id := r]
  {
    hide Legal, Replay, Tokens;
    var id, r := row.id, Taken(row, "a", 1, 0);
    log := ExhaustedRun(row);
    log := OneRowStep(log, id, r, RecoverCanceled(row.queue, 1, {id}));
    log := OneRowStep(log, id, r, Cancel(id, 1));
    log := OneRowStep(log, id, CancelMarked(r, 1), RecoverExhausted(row.queue, 1, {id}));
  }

  /** An operator may then even requeue it, and the table holds a pending row that nobody can claim. */
  lemma LostCancellationCanBeRequeued(row: Row)
    requires Newborn(row) && row.maxAttempts == 1 && row.availableAt <= 0
    ensures exists log: Log :: Legal(log) && MarkedWith(Replay(log), row.id, Failed)
    ensures exists log: Log :: Legal(log) && MarkedWith(Replay(log), row.id, Pending)
  {
    hide Legal, Replay, Tokens;
    var log := CancelBetweenRecoveriesIsLost(row);
    var r :| Replay(log) == map[row.id := r];
    var requeued := OneRowStep(log, row.id, r, RetryFailed(row.id, 2));
    assert MarkedWith(Replay(requeued), row.id, Pending);
  }

  // ------------------------------------------------------------ idempotency keys

  /** The map from (queue, idempotency key) to (task id, payload hash) that the table stands for. */
  function Bindings(t: Table): (b: map<(string, string), (TaskId, string)>)
    requires KeysUnique(t)
    ensures forall id :: id in t && t[id].key.Some? ==>
      (t[id].queue, t[id].key.value) in b && b[(t[id].queue, t[id].key.value)] == (id, t[id].hash)
    ensures forall k :: k in b ==> b[k].0 in t && t[b[k].0].queue == k.0 && t[b[k].0].key == Some(k.1)
  {
    map id | id in t && t[id].key.Some? :: (t[id].queue, t[id].key.value) := (id, t[id].hash)
  }

  /** No update of any holder or operator changes a binding; deletion drops only the bindings of its rows. */
  lemma UpdatesKeepBindings(t: Table, s: Stmt)
    requires KeysUnique(t) && !s.Insert? && KeysUnique(Apply(t, s))
    ensures Removed(t, s) == {} ==> Bindings(Apply(t, s)) == Bindings(t)
    ensures forall k :: k in Bindings(Apply(t, s)) <==> k in Bindings(t) && Bindings(t)[k].0 !in Removed(t, s)
    ensures forall k :: k in Bindings(Apply(t, s)) ==> Bindings(Apply(t, s))[k] == Bindings(t)[k]
  {
    var u := Apply(t, s);
    forall id | id in u
      ensures u[id].queue == t[id].queue && u[id].key == t[id].key && u[id].hash == t[id].hash
    {
      RowKeeps(id, t[id], s);
    }
    forall k | k in Bindings(t) && Bindings(t)[k].0 !in Removed(t, s)
      ensures k in Bindings(u) && Bindings(u)[k] == Bindings(t)[k]
    {
      assert Bindings(t)[k].0 in u;
    }
  }

  lemma AdmitsFreeKeys(t: Table, row: Row)
    requires KeysUnique(t) && row.key.Some?
    ensures Admits(t, row) <==> (row.queue, row.key.value) !in Bindings(t) && row.id !in t
  {
    var k := (row.queue, row.key.value);
    if k in Bindings(t) {
      assert t[Bindings(t)[k].0].key == row.key;
    }
  }

  lemma NewRowBinds(t: Table, u: Table, row: Row)
    requires KeysUnique(t) && KeysUnique(u) && row.key.Some? && row.id !in t && u == t[row.id := row]
    ensures Bindings(u) == Bindings(t)[(row.queue, row.key.value) := (row.id, row.hash)]
  {
    var b, k := Bindings(t), (row.queue, row.key.value);
    forall x | x in Bindings(u)
      ensures x in b[k := (row.id, row.hash)] && Bindings(u)[x] == b[k := (row.id, row.hash)][x]
    {
      var id := Bindings(u)[x].0;
      assert u[id].key.Some? && (u[id].queue, u[id].key.value) == x;
      if id != row.id {
        assert t[id] == u[id];
      }
    }
    forall x | x in b ensures x in Bindings(u) {
      assert u[b[x].0] == t[b[x].0];
    }
    assert u[row.id] == row;
  }

  /** A keyed insert binds a free key to a free id and otherwise changes nothing. */
  lemma InsertBinds(t: Table, row: Row)
    requires KeysUnique(t) && KeysUnique(Apply(t, Insert(row))) && row.key.Some?
    ensures var b, k := Bindings(t), (row.queue, row.key.value);
      Bindings(Apply(t, Insert(row))) == if k !in b && row.id !in t then b[k := (row.id, row.hash)] else b
  {
    AdmitsFreeKeys(t, row);
    if Admits(t, row) {
      NewRowBinds(t, t[row.id := row], row);
    }
  }

  /** While a row lives, its queue, key, hash and limit never change, even when Retry rewrites its payload. */
  lemma {:induction false} IdentityPersists(log: Log, id: TaskId, i: nat, k: nat)
    requires Legal(log) && k <= |log| && Lives(log, id, i, k)
    ensures var p, q := At(log, i)[id], At(log, k)[id];
      q.queue == p.queue && q.key == p.key && q.hash == p.hash && q.maxAttempts == p.maxAttempts
    decreases k
  {
    hide Legal, Replay, Tokens;
    if i < k {
      assert Lives(log, id, i, k - 1);
      IdentityPersists(log, id, i, k - 1);
      LivesStep(log, id, k - 1);
      RowKeeps(id, At(log, k - 1)[id], log[k - 1]);
    }
  }
}
