/**
  The claim transaction at the granularity of row locks, at PostgreSQL's default isolation. Its two recovery
  updates, its locked select and its guarded update with the commit are separate moves. What it has written is
  visible to itself alone until it commits, and the rows it wrote or picked stay locked until it ends. Between its
  moves other sessions run any statement that does not have to wait for a locked row. Every such run
  leaves the committed table that a legal log leaves, so every theorem about logs applies to it.
 */
module Locks {
  import opened Common
  import opened Tasks
  import opened Runs
  import opened Fencing
  import opened Lifetimes

  /** How far a claim transaction has come: after its first, after its second recovery update, after its select. */
  datatype Stage = Begun | Recovered | Selected

  /**
    An open claim transaction: the rows its recovery updates rewrote, with their new and still private versions,
    and the row its select returned with the fencing token read from it.
   */
  datatype Tx = Tx(queue: string, now: int, stage: Stage, canceled: set<TaskId>, exhausted: set<TaskId>,
                   writes: Table, pick: Option<(TaskId, nat)>)

  /** The committed table, the statements that led to it in the order of their commits, the open transactions. */
  datatype System = System(table: Table, log: Log, open: map<nat, Tx>)

  datatype Move =
    | Run(stmt: Stmt)
    | Begin(tx: nat, queue: string, now: int)
    | RecoverRest(tx: nat)
    | SelectLocked(tx: nat)
    | Commit(tx: nat, token: string, expires: int)
    | Abort(tx: nat)

  /** The rows a transaction has locked. */
  function Owned(x: Tx): set<TaskId> {
    x.canceled + x.exhausted + (if x.pick.Some? then {x.pick.value.0} else {})
  }

  function LockedRows(sys: System): set<TaskId> {
    set tx, id | tx in sys.open && id in Owned(sys.open[tx]) :: id
  }

  function LockedByOthers(sys: System, me: nat): set<TaskId> {
    set tx, id | tx in sys.open && tx != me && id in Owned(sys.open[tx]) :: id
  }

  /** What a transaction sees: the committed rows under its own writes. */
  function View(sys: System, x: Tx): Table {
    sys.table + x.writes
  }

  function Cancels(x: Tx, rows: set<TaskId>): Stmt {
    RecoverCanceled(x.queue, x.now, rows)
  }

  function Exhausts(x: Tx, rows: set<TaskId>): Stmt {
    RecoverExhausted(x.queue, x.now, rows)
  }

  function GuardedUpdate(x: Tx, token: string, expires: int): Stmt
    requires x.pick.Some?
  {
    Take(x.queue, x.now, x.pick.value.0, x.pick.value.1, token, expires)
  }

  /** The new versions of the rows that an update hits. */
  function Versions(t: Table, s: Stmt, rows: set<TaskId>): Table
    requires rows <= t.Keys
  {
    map id | id in rows :: Updated(t[id], s)
  }

  /** The rows of the table that the WHERE clause of a recovery update finds. */
  function Found(t: Table, s: Stmt): (rows: set<TaskId>)
    ensures rows <= t.Keys
  {
    set id | id in t && Hits(id, t[id], s)
  }

  function Opened(queue: string, now: int): Tx {
    Tx(queue, now, Begun, {}, {}, map[], None)
  }

  /** A statement waits while it would write a locked row; pruning and the locked select skip locked rows instead. */
  predicate Enabled(sys: System, m: Move) {
    match m
    case Run(s) =>
      && !s.Take? && !s.RecoverCanceled? && !s.RecoverExhausted? && LegalStmt(sys.table, Tokens(sys.log), s)
      && Affected(sys.table, s) !! LockedRows(sys) && (s.Prune? ==> s.locked == LockedRows(sys))
    case Begin(tx, queue, now) =>
      tx !in sys.open && Found(sys.table, RecoverCanceled(queue, now, sys.table.Keys)) !! LockedRows(sys)
    case RecoverRest(tx) =>
      && tx in sys.open && sys.open[tx].stage == Begun
      && var x := sys.open[tx];
      Found(View(sys, x), Exhausts(x, sys.table.Keys)) !! LockedByOthers(sys, tx)
    case SelectLocked(tx) => tx in sys.open && sys.open[tx].stage == Recovered
    case Commit(tx, token, _) =>
      tx in sys.open && sys.open[tx].stage == Selected && token != "" && token !in Tokens(sys.log)
    case Abort(tx) => tx in sys.open
  }

  /** The first recovery update, on the committed table. */
  function AfterBegin(t: Table, queue: string, now: int): Tx {
    var x := Opened(queue, now);
    var rows := Found(t, Cancels(x, t.Keys));
    x.(canceled := rows, writes := Versions(t, Cancels(x, t.Keys), rows))
  }

  /** The second recovery update, on what the transaction sees. */
  function AfterRecoverRest(view: Table, x: Tx): Tx {
    var rows := Found(view, Exhausts(x, view.Keys));
    x.(stage := Recovered, exhausted := rows, writes := x.writes + Versions(view, Exhausts(x, view.Keys), rows))
  }

  function AfterSelect(view: Table, x: Tx, others: set<TaskId>): Tx {
    var pick := Select(view, x.queue, x.now, others);
    x.(stage := Selected, pick := if pick.None? then None else Some((pick.value, view[pick.value].fencing)))
  }

  /** The guarded update, if a row was picked, and the commit. */
  function Committed(sys: System, x: Tx, token: string, expires: int): (Table, Log) {
    var recovered := sys.log + [Cancels(x, x.canceled), Exhausts(x, x.exhausted)];
    if x.pick.None? then (View(sys, x), recovered)
    else (Apply(View(sys, x), GuardedUpdate(x, token, expires)), recovered + [GuardedUpdate(x, token, expires)])
  }

  function Next(sys: System, m: Move): System
    requires Enabled(sys, m)
  {
    match m
    case Run(s) => System(Apply(sys.table, s), sys.log + [s], sys.open)
    case Begin(tx, queue, now) => sys.(open := sys.open[tx := AfterBegin(sys.table, queue, now)])
    case RecoverRest(tx) =>
      sys.(open := sys.open[tx := AfterRecoverRest(View(sys, sys.open[tx]), sys.open[tx])])
    case SelectLocked(tx) =>
      sys.(open := sys.open[tx := AfterSelect(View(sys, sys.open[tx]), sys.open[tx], LockedByOthers(sys, tx))])
    case Commit(tx, token, expires) =>
      var (table, log) := Committed(sys, sys.open[tx], token, expires);
      System(table, log, sys.open - {tx})
    case Abort(tx) => sys.(open := sys.open - {tx})
  }

  predicate Feasible(moves: seq<Move>)
    decreases |moves|, 0
  {
    moves == [] ||
    (Feasible(moves[..|moves| - 1]) && Enabled(Reach(moves[..|moves| - 1]), moves[|moves| - 1]))
  }

  function Reach(moves: seq<Move>): System
    requires Feasible(moves)
    decreases |moves|, 1
  {
    if moves == [] then System(map[], [], map[]) else Next(Reach(moves[..|moves| - 1]), moves[|moves| - 1])
  }

  // ------------------------------------------------------------ what locks protect

  /** The committed versions of a transaction's rows are still those it read, and its writes are made from them. */
  predicate TxOk(t: Table, x: Tx) {
    && x.canceled <= t.Keys && x.exhausted <= t.Keys && x.canceled !! x.exhausted
    && (forall id :: id in x.canceled ==> Hits(id, t[id], Cancels(x, x.canceled)))
    && (forall id :: id in x.exhausted ==> Hits(id, t[id], Exhausts(x, x.exhausted)))
    && x.writes == Versions(t, Cancels(x, x.canceled), x.canceled) + Versions(t, Exhausts(x, x.exhausted), x.exhausted)
    && (x.stage == Begun ==> x.exhausted == {}) && (x.pick.Some? ==> x.stage == Selected)
    && (x.pick.Some? ==> StillClaimable(t, x))
  }

  predicate StillClaimable(t: Table, x: Tx)
    requires x.pick.Some?
  {
    var (id, fencing) := x.pick.value;
    id in t && Claimable(t[id], x.queue, x.now) && t[id].fencing == fencing
  }

  predicate Disjoint(open: map<nat, Tx>) {
    forall a, b :: a in open && b in open && a != b ==> Owned(open[a]) !! Owned(open[b])
  }

  predicate LockInv(sys: System) {
    && Legal(sys.log) && sys.table == Replay(sys.log)
    && (forall tx :: tx in sys.open ==> TxOk(sys.table, sys.open[tx]))
    && Disjoint(sys.open)
  }

  lemma UnaffectedRow(t: Table, s: Stmt, id: TaskId)
    requires id in t && id !in Affected(t, s)
    ensures id in Apply(t, s) && Apply(t, s)[id] == t[id]
  {
  }

  /** A table that keeps the rows of a transaction keeps its view of them. */
  lemma KeptRowsKeepTx(t: Table, u: Table, x: Tx)
    requires TxOk(t, x) && forall id :: id in Owned(x) ==> id in t && id in u && u[id] == t[id]
    ensures TxOk(u, x)
  {
    hide Hits, Updated, Claimable;
    assert x.pick.Some? ==> x.pick.value.0 in Owned(x);
    assert Versions(t, Cancels(x, x.canceled), x.canceled) == Versions(u, Cancels(x, x.canceled), x.canceled);
    assert Versions(t, Exhausts(x, x.exhausted), x.exhausted) == Versions(u, Exhausts(x, x.exhausted), x.exhausted);
  }

  lemma RunKeepsLocks(sys: System, s: Stmt)
    requires LockInv(sys) && LegalStmt(sys.table, Tokens(sys.log), s)
    requires Affected(sys.table, s) !! LockedRows(sys)
    ensures LockInv(System(Apply(sys.table, s), sys.log + [s], sys.open))
  {
    hide Legal, Replay, Tokens, TxOk, Apply, Affected;
    LegalAppend(sys.log, s);
    forall tx | tx in sys.open ensures TxOk(Apply(sys.table, s), sys.open[tx]) {
      OwnedInTable(sys.table, sys.open[tx]);
      forall id | id in Owned(sys.open[tx])
        ensures id in Apply(sys.table, s) && Apply(sys.table, s)[id] == sys.table[id]
      {
        assert id in LockedRows(sys);
        UnaffectedRow(sys.table, s, id);
      }
      KeptRowsKeepTx(sys.table, Apply(sys.table, s), sys.open[tx]);
    }
  }

  lemma OwnedInTable(t: Table, x: Tx)
    requires TxOk(t, x)
    ensures Owned(x) <= t.Keys
  {
  }

  // ------------------------------------------------------------ the moves of one transaction

  lemma BeginOk(t: Table, queue: string, now: int)
    ensures var x := AfterBegin(t, queue, now);
      TxOk(t, x) && Owned(x) == Found(t, RecoverCanceled(queue, now, t.Keys))
  {
  }

  /** One row as a transaction sees it. */
  lemma ViewRow(sys: System, x: Tx, id: TaskId)
    requires TxOk(sys.table, x) && id in sys.table
    ensures id in View(sys, x)
    ensures View(sys, x)[id] == if id in x.canceled then Updated(sys.table[id], Cancels(x, x.canceled))
                                else if id in x.exhausted then Updated(sys.table[id], Exhausts(x, x.exhausted))
                                else sys.table[id]
    ensures id in x.canceled ==> Hits(id, sys.table[id], Cancels(x, x.canceled)) && View(sys, x)[id].status == Canceled
    ensures id in x.exhausted ==> Hits(id, sys.table[id], Exhausts(x, x.exhausted)) && View(sys, x)[id].status == Failed
  {
  }

  lemma ViewKeys(sys: System, x: Tx)
    requires TxOk(sys.table, x)
    ensures View(sys, x).Keys == sys.table.Keys
  {
  }

  /** The rows that the second recovery update finds are committed rows that the transaction has not written. */
  lemma RestIsUnwritten(sys: System, x: Tx)
    requires TxOk(sys.table, x)
    ensures View(sys, x).Keys == sys.table.Keys
    ensures var rows := Found(View(sys, x), Exhausts(x, sys.table.Keys));
      && rows !! x.canceled && rows !! x.exhausted && forall id :: id in rows ==> View(sys, x)[id] == sys.table[id]
  {
    hide TxOk, View;
    ViewKeys(sys, x);
    forall id | id in sys.table.Keys && Hits(id, View(sys, x)[id], Exhausts(x, sys.table.Keys))
      ensures id !in x.canceled && id !in x.exhausted && View(sys, x)[id] == sys.table[id]
    {
      ViewRow(sys, x, id);
    }
  }

  lemma SameVersions(t: Table, u: Table, s: Stmt, again: Stmt, rows: set<TaskId>)
    requires rows <= t.Keys && rows <= u.Keys && forall id :: id in rows ==> t[id] == u[id]
    requires forall r :: Updated(r, s) == Updated(r, again)
    ensures Versions(t, s, rows) == Versions(u, again, rows)
  {
    hide Updated;
  }

  lemma RecoverRestOk(sys: System, x: Tx)
    requires TxOk(sys.table, x) && x.stage == Begun
    ensures var y := AfterRecoverRest(View(sys, x), x);
      TxOk(sys.table, y) && Owned(y) == Owned(x) + Found(View(sys, x), Exhausts(x, sys.table.Keys))
  {
    RestIsUnwritten(sys, x);
    hide View, Versions;
    var t, view, y := sys.table, View(sys, x), AfterRecoverRest(View(sys, x), x);
    SameVersions(view, t, Exhausts(x, view.Keys), Exhausts(y, y.exhausted), y.exhausted);
    SameVersions(t, t, Cancels(x, x.canceled), Cancels(y, y.canceled), x.canceled);
    assert x.writes == Versions(t, Cancels(x, x.canceled), x.canceled) by {
      NoVersions(t, Exhausts(x, x.exhausted), Versions(t, Cancels(x, x.canceled), x.canceled));
    }
  }

  lemma NoVersions(t: Table, s: Stmt, writes: Table)
    ensures writes + Versions(t, s, {}) == writes
  {
  }

  /** The rows a transaction has recovered are not claimable in any version. */
  lemma SelectSeesCommitted(sys: System, x: Tx, others: set<TaskId>)
    requires TxOk(sys.table, x)
    ensures View(sys, x).Keys == sys.table.Keys
    ensures ClaimableIds(View(sys, x), x.queue, x.now, others) == ClaimableIds(sys.table, x.queue, x.now, others)
    ensures forall id :: id in ClaimableIds(sys.table, x.queue, x.now, others) ==> View(sys, x)[id] == sys.table[id]
  {
    hide TxOk, View;
    ViewKeys(sys, x);
    forall id | id in sys.table
      ensures Claimable(View(sys, x)[id], x.queue, x.now) <==> Claimable(sys.table[id], x.queue, x.now)
      ensures Claimable(sys.table[id], x.queue, x.now) ==> View(sys, x)[id] == sys.table[id]
    {
      ViewRow(sys, x, id);
    }
  }

  lemma SelectOk(sys: System, x: Tx, others: set<TaskId>)
    requires TxOk(sys.table, x) && x.stage == Recovered
    ensures var y := AfterSelect(View(sys, x), x, others);
      && TxOk(sys.table, y) && Owned(x) <= Owned(y) && Owned(y) <= sys.table.Keys
      && forall id :: id in Owned(y) ==> id in Owned(x) || id !in others
  {
    SelectSeesCommitted(sys, x, others);
  }

  lemma RecoveryOfRows(t: Table, s: Stmt)
    requires s.RecoverCanceled? || s.RecoverExhausted?
    ensures Apply(t, s).Keys == t.Keys && Affected(t, s) == Found(t, s)
    ensures forall id :: id in t ==> Apply(t, s)[id] == RowAfter(id, t[id], s)
  {
  }

  /** A transaction sees what its recovery updates, restricted to the rows they rewrote, make of the committed table. */
  lemma ViewIsReplay(sys: System, x: Tx)
    requires TxOk(sys.table, x)
    ensures View(sys, x) == Apply(Apply(sys.table, Cancels(x, x.canceled)), Exhausts(x, x.exhausted))
    ensures Affected(sys.table, Cancels(x, x.canceled)) == x.canceled
    ensures Affected(Apply(sys.table, Cancels(x, x.canceled)), Exhausts(x, x.exhausted)) == x.exhausted
  {
    hide Apply, Affected, View, TxOk;
    var first, second := Cancels(x, x.canceled), Exhausts(x, x.exhausted);
    RecoveryOfRows(sys.table, first);
    RecoveryOfRows(Apply(sys.table, first), second);
    OwnedInTable(sys.table, x);
    ViewKeys(sys, x);
    forall id | id in sys.table
      ensures id in x.canceled <==> Hits(id, sys.table[id], first)
      ensures id in x.exhausted <==> Hits(id, Apply(sys.table, first)[id], second)
      ensures View(sys, x)[id] == Apply(Apply(sys.table, first), second)[id]
    {
      ViewRow(sys, x, id);
      DisjointRecoveries(sys.table, x, id);
    }
  }

  lemma DisjointRecoveries(t: Table, x: Tx, id: TaskId)
    requires TxOk(t, x)
    ensures id in x.canceled ==> id !in x.exhausted
  {
  }

  // ------------------------------------------------------------ commit

  /** At the commit the recovery updates become statements of the log, on exactly the rows they rewrote. */
  lemma RecoveriesCommit(sys: System, x: Tx)
    requires Legal(sys.log) && sys.table == Replay(sys.log) && TxOk(sys.table, x)
    ensures var more := sys.log + [Cancels(x, x.canceled), Exhausts(x, x.exhausted)];
      Legal(more) && Replay(more) == View(sys, x) && Tokens(more) == Tokens(sys.log)
  {
    hide Legal, Replay, Tokens, TxOk, View;
    var first, second := Cancels(x, x.canceled), Exhausts(x, x.exhausted);
    ViewIsReplay(sys, x);
    LegalAppend(sys.log, first);
    LegalAppend(sys.log + [first], second);
    assert sys.log + [first] + [second] == sys.log + [first, second];
  }

  lemma PickIsSeen(sys: System, x: Tx)
    requires TxOk(sys.table, x) && x.pick.Some?
    ensures StillClaimable(View(sys, x), x) && x.pick.value.0 in sys.table
    ensures View(sys, x)[x.pick.value.0] == sys.table[x.pick.value.0]
  {
    hide View;
    ViewRow(sys, x, x.pick.value.0);
  }

  lemma GuardHits(sys: System, x: Tx, token: string, expires: int)
    requires TxOk(sys.table, x) && x.pick.Some?
    ensures Affected(View(sys, x), GuardedUpdate(x, token, expires)) == {x.pick.value.0}
  {
    hide View, TxOk;
    PickIsSeen(sys, x);
  }

  lemma CommitOk(sys: System, x: Tx, token: string, expires: int)
    requires Legal(sys.log) && sys.table == Replay(sys.log) && TxOk(sys.table, x)
    requires token != "" && token !in Tokens(sys.log)
    ensures var (table, log) := Committed(sys, x, token, expires);
      && Legal(log) && table == Replay(log)
      && forall id :: id in sys.table && id !in Owned(x) ==> id in table && table[id] == sys.table[id]
  {
    hide Legal, Replay, Tokens, TxOk, View, Apply, Affected;
    var view, recovered := View(sys, x), sys.log + [Cancels(x, x.canceled), Exhausts(x, x.exhausted)];
    RecoveriesCommit(sys, x);
    forall id | id in sys.table && id !in Owned(x) ensures id in view && view[id] == sys.table[id] {
      ViewRow(sys, x, id);
    }
    if x.pick.Some? {
      var update := GuardedUpdate(x, token, expires);
      PickIsSeen(sys, x);
      GuardHits(sys, x, token, expires);
      LegalAppend(recovered, update);
      forall id | id in sys.table && id !in Owned(x)
        ensures id in Apply(view, update) && Apply(view, update)[id] == view[id]
      {
        UnaffectedRow(view, update, id);
      }
    }
  }

  // ------------------------------------------------------------ the invariant of every run

  /** A transaction may take over rows that no other transaction has locked. */
  lemma GrownTxKeepsLocks(sys: System, tx: nat, y: Tx)
    requires LockInv(sys) && TxOk(sys.table, y) && Owned(y) !! LockedByOthers(sys, tx)
    ensures LockInv(sys.(open := sys.open[tx := y]))
  {
    hide Legal, Replay, TxOk, Owned;
    var open := sys.open[tx := y];
    forall o | o in sys.open && o != tx ensures Owned(y) !! Owned(sys.open[o]) {
      assert forall id :: id in Owned(sys.open[o]) ==> id in LockedByOthers(sys, tx);
    }
    assert forall o :: o in open && o != tx ==> open[o] == sys.open[o];
  }

  lemma OwnedIsFree(sys: System, tx: nat)
    requires Disjoint(sys.open) && tx in sys.open
    ensures Owned(sys.open[tx]) !! LockedByOthers(sys, tx)
  {
    hide Owned;
  }

  /** A transaction that ends with a table in which nobody else's rows have changed. */
  lemma EndedTxKeepsLocks(sys: System, tx: nat, table: Table, log: Log)
    requires LockInv(sys) && tx in sys.open && Legal(log) && table == Replay(log)
    requires forall id :: id in sys.table && id !in Owned(sys.open[tx]) ==> id in table && table[id] == sys.table[id]
    ensures LockInv(System(table, log, sys.open - {tx}))
  {
    hide Legal, Replay, TxOk, Owned;
    forall o | o in sys.open && o != tx ensures TxOk(table, sys.open[o]) {
      OwnedInTable(sys.table, sys.open[o]);
      forall id | id in Owned(sys.open[o]) ensures id in sys.table && id in table && table[id] == sys.table[id] {
        assert id !in Owned(sys.open[tx]);
      }
      KeptRowsKeepTx(sys.table, table, sys.open[o]);
    }
  }

  lemma MoveKeepsLockInv(sys: System, m: Move)
    requires LockInv(sys) && Enabled(sys, m)
    ensures LockInv(Next(sys, m))
  {
    hide Legal, Replay, Tokens, TxOk, Owned, Found, View, Apply, Disjoint;
    hide AfterBegin, AfterRecoverRest, AfterSelect, Committed;
    match m
    case Run(s) => RunKeepsLocks(sys, s);
    case Begin(tx, queue, now) =>
      BeginOk(sys.table, queue, now);
      assert LockedByOthers(sys, tx) <= LockedRows(sys);
      GrownTxKeepsLocks(sys, tx, AfterBegin(sys.table, queue, now));
    case RecoverRest(tx) =>
      RecoverRestOk(sys, sys.open[tx]);
      OwnedIsFree(sys, tx);
      GrownTxKeepsLocks(sys, tx, AfterRecoverRest(View(sys, sys.open[tx]), sys.open[tx]));
    case SelectLocked(tx) =>
      SelectOk(sys, sys.open[tx], LockedByOthers(sys, tx));
      OwnedIsFree(sys, tx);
      GrownTxKeepsLocks(sys, tx, AfterSelect(View(sys, sys.open[tx]), sys.open[tx], LockedByOthers(sys, tx)));
    case Commit(tx, token, expires) =>
      CommitOk(sys, sys.open[tx], token, expires);
      var (table, log) := Committed(sys, sys.open[tx], token, expires);
      EndedTxKeepsLocks(sys, tx, table, log);
    case Abort(tx) => EndedTxKeepsLocks(sys, tx, sys.table, sys.log);
  }

  /** However claims, their rollbacks and other sessions interleave, the committed table is that of a legal log. */
  lemma {:induction false} LockedRunsAreLegal(moves: seq<Move>)
    requires Feasible(moves)
    ensures LockInv(Reach(moves)) && Legal(Reach(moves).log) && Reach(moves).table == Replay(Reach(moves).log)
  {
    if moves != [] {
      var n := |moves| - 1;
      LockedRunsAreLegal(moves[..n]);
      MoveKeepsLockInv(Reach(moves[..n]), moves[n]);
    }
  }

  /** The guarded update hits exactly its row, so the lost-lease branch inside a claim is never taken. */
  lemma GuardedUpdateHitsOneRow(moves: seq<Move>, tx: nat, token: string, expires: int)
    requires Feasible(moves) && tx in Reach(moves).open && Reach(moves).open[tx].pick.Some?
    ensures var sys := Reach(moves);
      |Affected(View(sys, sys.open[tx]), GuardedUpdate(sys.open[tx], token, expires))| == 1
  {
    LockedRunsAreLegal(moves);
    GuardHits(Reach(moves), Reach(moves).open[tx], token, expires);
  }

  /** Claims in flight at the same time have recovered and picked different rows. */
  lemma InterleavedClaimsDiffer(moves: seq<Move>, a: nat, b: nat)
    requires Feasible(moves) && a in Reach(moves).open && b in Reach(moves).open && a != b
    ensures Owned(Reach(moves).open[a]) !! Owned(Reach(moves).open[b])
  {
    LockedRunsAreLegal(moves);
  }

  // ------------------------------------------------------------ what a claim waits for, picks and publishes

  /** The row is one that the recovery updates of the open claim o rewrote. */
  predicate Rewrites(sys: System, o: nat, id: TaskId) {
    o in sys.open && id in sys.open[o].canceled + sys.open[o].exhausted && id in sys.table
  }

  /** A claim of the same queue has rewritten the row, whose lease had run out at that clock reading as well. */
  predicate RewritesExpired(sys: System, o: nat, id: TaskId, queue: string, now: int) {
    Rewrites(sys, o, id) && sys.open[o].queue == queue && Expired(sys.table[id], now)
  }

  /** The part of a recovery update's WHERE clause in which the two differ. */
  predicate Selects(s: Stmt, r: Row) {
    if s.RecoverCanceled? then r.cancelRequested.Some? else r.attempts >= r.maxAttempts
  }

  /** A picked row is met by no recovery update; a recovered one is, while its lease has also run out for the other. */
  lemma OwnedRowMet(t: Table, x: Tx, id: TaskId, s: Stmt)
    requires TxOk(t, x) && id in Owned(x) && id in t
    requires (s.RecoverCanceled? || s.RecoverExhausted?) && id in s.rows
    ensures Hits(id, t[id], s) <==>
      id in x.canceled + x.exhausted && x.queue == s.queue && Expired(t[id], s.now) && Selects(s, t[id])
  {
  }

  lemma RecoveryWaits(sys: System, me: nat, s: Stmt)
    requires LockInv(sys) && (s.RecoverCanceled? || s.RecoverExhausted?) && s.rows == sys.table.Keys
    ensures !(Found(sys.table, s) !! LockedByOthers(sys, me)) <==>
      exists o, id :: o != me && RewritesExpired(sys, o, id, s.queue, s.now) && Selects(s, sys.table[id])
  {
    hide Legal, Replay, TxOk, Hits, Selects;
    if !(Found(sys.table, s) !! LockedByOthers(sys, me)) {
      var id :| id in Found(sys.table, s) && id in LockedByOthers(sys, me);
      var o :| o in sys.open && o != me && id in Owned(sys.open[o]);
      OwnedRowMet(sys.table, sys.open[o], id, s);
      assert RewritesExpired(sys, o, id, s.queue, s.now);
    }
    forall o, id | o != me && RewritesExpired(sys, o, id, s.queue, s.now) && Selects(s, sys.table[id])
      ensures id in Found(sys.table, s) && id in LockedByOthers(sys, me)
    {
      OwnedRowMet(sys.table, sys.open[o], id, s);
    }
  }

  /**
    The first recovery update of a claim waits exactly when another open claim of its queue has rewritten a row
    that it would cancel as well. Rows that others have merely picked never make it wait.
   */
  lemma FirstRecoveryWaitsExactly(moves: seq<Move>, tx: nat, queue: string, now: int)
    requires Feasible(moves) && tx !in Reach(moves).open
    ensures var sys := Reach(moves);
      !Enabled(sys, Begin(tx, queue, now)) <==>
      exists o, id :: RewritesExpired(sys, o, id, queue, now) && sys.table[id].cancelRequested.Some?
  {
    LockedRunsAreLegal(moves);
    hide Legal, Replay, TxOk, Hits;
    var sys := Reach(moves);
    RecoveryWaits(sys, tx, RecoverCanceled(queue, now, sys.table.Keys));
    assert LockedByOthers(sys, tx) == LockedRows(sys);
    assert forall o, id :: RewritesExpired(sys, o, id, queue, now) ==> o != tx;
  }

  /** The same for the second recovery update, on rows whose attempts are used up. */
  lemma SecondRecoveryWaitsExactly(moves: seq<Move>, tx: nat)
    requires Feasible(moves) && tx in Reach(moves).open && Reach(moves).open[tx].stage == Begun
    ensures var sys := Reach(moves);
      var x := sys.open[tx];
      !Enabled(sys, RecoverRest(tx)) <==>
      exists o, id :: o != tx && RewritesExpired(sys, o, id, x.queue, x.now)
        && sys.table[id].attempts >= sys.table[id].maxAttempts
  {
    LockedRunsAreLegal(moves);
    hide Legal, Replay, TxOk, Hits, Reach, View;
    var sys := Reach(moves);
    RecoveryWaits(sys, tx, Exhausts(sys.open[tx], sys.table.Keys));
    OthersSeenAlike(sys, tx);
  }

  /** Rows locked by others look the same to a transaction as to everyone else. */
  lemma OthersSeenAlike(sys: System, tx: nat)
    requires LockInv(sys) && tx in sys.open && sys.open[tx].stage == Begun
    ensures var x, s := sys.open[tx], Exhausts(sys.open[tx], sys.table.Keys);
      forall id :: id in LockedByOthers(sys, tx) ==> (id in Found(View(sys, x), s) <==> id in Found(sys.table, s))
  {
    hide Legal, Replay, TxOk, View;
    var x := sys.open[tx];
    OwnedIsFree(sys, tx);
    ViewKeys(sys, x);
    forall id | id in LockedByOthers(sys, tx) && id in sys.table ensures View(sys, x)[id] == sys.table[id] {
      ViewRow(sys, x, id);
    }
  }

  /** Pruning skips the rows that claims have locked, so it never waits for them. */
  lemma PruneNeverWaits(moves: seq<Move>, before: int, batch: nat)
    requires Feasible(moves)
    ensures Enabled(Reach(moves), Run(Prune(before, batch, LockedRows(Reach(moves)))))
  {
    hide Reach, Feasible, Tokens, FirstN, LockedRows;
    var sys := Reach(moves);
    var prune := Prune(before, batch, LockedRows(sys));
    assert Affected(sys.table, prune) <= Prunable(sys.table, before, LockedRows(sys));
  }

  /** A cancel waits exactly while an open claim has rewritten or picked the row that it would mark. */
  lemma CancelWaitsExactly(moves: seq<Move>, id: TaskId, now: int)
    requires Feasible(moves)
    ensures var sys := Reach(moves);
      !Enabled(sys, Run(Cancel(id, now))) <==>
      && id in sys.table && sys.table[id].status in {Pending, Processing}
      && exists o :: o in sys.open && (id in sys.open[o].canceled || id in sys.open[o].exhausted
                                       || (sys.open[o].pick.Some? && sys.open[o].pick.value.0 == id))
  {
    hide Reach, Feasible, Tokens;
    var sys := Reach(moves);
    assert Affected(sys.table, Cancel(id, now))
        == if id in sys.table && sys.table[id].status in {Pending, Processing} then {id} else {};
    assert id in LockedRows(sys) <==> exists o :: o in sys.open && id in Owned(sys.open[o]);
  }

  /** What the locked select of a claim returns, in terms of the committed table. */
  predicate PicksLeast(t: Table, x: Tx, others: set<TaskId>, pick: Option<(TaskId, nat)>) {
    var ids := ClaimableIds(t, x.queue, x.now, others);
    if ids == {} then pick == None
    else
      && pick.Some? && pick.value.0 in ids && IsFirst(ClaimRanks(t), ids, pick.value.0)
      && pick.value.1 == t[pick.value.0].fencing
  }

  lemma SelectIsLeast(sys: System, x: Tx, others: set<TaskId>)
    requires TxOk(sys.table, x)
    ensures PicksLeast(sys.table, x, others, AfterSelect(View(sys, x), x, others).pick)
  {
    hide TxOk, View, Claimable;
    SelectSeesCommitted(sys, x, others);
    var view, ids := View(sys, x), ClaimableIds(sys.table, x.queue, x.now, others);
    var pick := Select(view, x.queue, x.now, others);
    if pick.Some? {
      forall id | id in ids && id != pick.value ensures Before(ClaimRanks(sys.table), pick.value, id) {
        assert Before(ClaimRanks(view), pick.value, id);
      }
    }
  }

  /** The locked select returns the least claimable committed row that no other claim has locked. */
  lemma LockedSelectIsLeast(moves: seq<Move>, tx: nat)
    requires Feasible(moves) && Enabled(Reach(moves), SelectLocked(tx))
    ensures var sys, after := Reach(moves), Next(Reach(moves), SelectLocked(tx));
      PicksLeast(sys.table, sys.open[tx], LockedByOthers(sys, tx), after.open[tx].pick)
  {
    LockedRunsAreLegal(moves);
    hide Legal, Replay, Reach, TxOk, View, AfterSelect;
    SelectIsLeast(Reach(moves), Reach(moves).open[tx], LockedByOthers(Reach(moves), tx));
  }

  /** A row after the commit of a claim, by the one statement of the claim that wrote it. */
  function Published(x: Tx, id: TaskId, r: Row, token: string, expires: int): Row {
    if id in x.canceled then Released(r, Canceled, x.now)
    else if id in x.exhausted then Released(r, Failed, x.now).(failedAt := Some(x.now), lastFailure := "lease_expired")
    else if x.pick.Some? && x.pick.value.0 == id then Taken(r, token, expires, x.now)
    else r
  }

  /** A commit publishes exactly what the claim's own statements wrote; every other row is as committed before. */
  lemma CommitPublishes(moves: seq<Move>, tx: nat, token: string, expires: int)
    requires Feasible(moves) && Enabled(Reach(moves), Commit(tx, token, expires))
    ensures var sys := Reach(moves);
      Next(sys, Commit(tx, token, expires)).table
      == map id | id in sys.table :: Published(sys.open[tx], id, sys.table[id], token, expires)
  {
    LockedRunsAreLegal(moves);
    hide Legal, Replay, TxOk, Reach, View, Committed;
    PublishedRows(Reach(moves), Reach(moves).open[tx], token, expires);
  }

  lemma PublishedRows(sys: System, x: Tx, token: string, expires: int)
    requires TxOk(sys.table, x)
    ensures Committed(sys, x, token, expires).0
         == map id | id in sys.table :: Published(x, id, sys.table[id], token, expires)
  {
    hide TxOk, View;
    ViewKeys(sys, x);
    if x.pick.Some? {
      PickIsSeen(sys, x);
    }
    forall id | id in sys.table
      ensures Committed(sys, x, token, expires).0[id] == Published(x, id, sys.table[id], token, expires)
    {
      ViewRow(sys, x, id);
    }
  }

  // ------------------------------------------------------------ two runs under row locks

  lemma Step(moves: seq<Move>, m: Move) returns (more: seq<Move>)
    requires Feasible(moves) && Enabled(Reach(moves), m)
    ensures more == moves + [m] && Feasible(more) && Reach(more) == Next(Reach(moves), m)
  {
    more := moves + [m];
    assert more[..|moves|] == moves;
  }

  /** A system whose committed table holds one row and whose only open transaction, if any, is x. */
  function OneRow(log: Log, id: TaskId, r: Row, x: Option<Tx>): System {
    System(map[id := r], log, if x.None? then map[] else map[0 := x.value])
  }

  /** The first recovery update of the only claim on a table of one row. */
  lemma BeginOne(moves: seq<Move>, log: Log, id: TaskId, r: Row, queue: string, now: int) returns (more: seq<Move>)
    requires Feasible(moves) && Reach(moves) == OneRow(log, id, r, None)
    ensures Feasible(more)
    ensures var s := RecoverCanceled(queue, now, {id});
      Reach(more) == OneRow(log, id, r, Some(
        if Hits(id, r, s) then Opened(queue, now).(canceled := {id}, writes := map[id := Updated(r, s)])
        else Opened(queue, now)))
  {
    hide Reach, Feasible;
    var t, s := map[id := r], RecoverCanceled(queue, now, {id});
    assert t.Keys == {id};
    var rows := Found(t, s);
    assert rows == if Hits(id, r, s) then {id} else {};
    assert Versions(t, s, rows) == if Hits(id, r, s) then map[id := Updated(r, s)] else map[];
    assert AfterBegin(t, queue, now) == Opened(queue, now).(canceled := rows, writes := Versions(t, s, rows));
    more := Step(moves, Begin(0, queue, now));
  }

  /** Its second recovery update, when the first found nothing. */
  lemma RecoverOne(moves: seq<Move>, log: Log, id: TaskId, r: Row, queue: string, now: int) returns (more: seq<Move>)
    requires Feasible(moves) && Reach(moves) == OneRow(log, id, r, Some(Opened(queue, now)))
    ensures Feasible(more)
    ensures var s, x := RecoverExhausted(queue, now, {id}), Opened(queue, now).(stage := Recovered);
      Reach(more) == OneRow(log, id, r, Some(
        if Hits(id, r, s) then x.(exhausted := {id}, writes := map[id := Updated(r, s)]) else x))
  {
    hide Reach, Feasible;
    var t, s := map[id := r], RecoverExhausted(queue, now, {id});
    assert t.Keys == {id} && t + map[] == t;
    var rows, x := Found(t, s), Opened(queue, now);
    assert rows == if Hits(id, r, s) then {id} else {};
    assert Versions(t, s, rows) == if Hits(id, r, s) then map[id := Updated(r, s)] else map[];
    assert map[] + Versions(t, s, rows) == Versions(t, s, rows);
    assert AfterRecoverRest(t, x) == x.(stage := Recovered, exhausted := rows, writes := Versions(t, s, rows));
    assert LockedByOthers(Reach(moves), 0) == {};
    more := Step(moves, RecoverRest(0));
  }

  /** Its locked select. */
  lemma SelectOne(moves: seq<Move>, log: Log, id: TaskId, r: Row, x: Tx) returns (more: seq<Move>)
    requires Feasible(moves) && Reach(moves) == OneRow(log, id, r, Some(x)) && x.stage == Recovered
    requires x.pick.None? && x.writes.Keys <= {id}
    ensures Feasible(more)
    ensures var seen := if id in x.writes then x.writes[id] else r;
      Reach(more) == OneRow(log, id, r, Some(x.(stage := Selected,
        pick := if Claimable(seen, x.queue, x.now) then Some((id, seen.fencing)) else None)))
  {
    hide Reach, Feasible;
    var seen := if id in x.writes then x.writes[id] else r;
    assert map[id := r] + x.writes == map[id := seen];
    assert LockedByOthers(Reach(moves), 0) == {};
    assert ClaimableIds(map[id := seen], x.queue, x.now, {}) == if Claimable(seen, x.queue, x.now) then {id} else {};
    more := Step(moves, SelectLocked(0));
  }

  /** An exhausted row after its only claim. */
  lemma ClaimedRun(row: Row) returns (moves: seq<Move>, log: Log)
    requires Newborn(row) && row.maxAttempts == 1 && row.availableAt <= 0
    ensures Feasible(moves) && Reach(moves) == OneRow(log, row.id, Taken(row, "a", 1, 0), None)
    ensures Tokens(log) <= {"a"}
  {
    var id, q := row.id, row.queue;
    moves, log := InsertedRun(row);
    hide Reach, Feasible;
    moves := BeginOne(moves, log, id, row, q, 0);
    moves := RecoverOne(moves, log, id, row, q, 0);
    moves := SelectOne(moves, log, id, row, Opened(q, 0).(stage := Recovered));
    log := CommitTake(moves, log, id, row, q);
    moves := Step(moves, Commit(0, "a", 1));
  }

  lemma InsertedRun(row: Row) returns (moves: seq<Move>, log: Log)
    requires Newborn(row)
    ensures Feasible(moves) && Reach(moves) == OneRow(log, row.id, row, None) && Tokens(log) == {}
  {
    log := [Insert(row)];
    assert Tokens(log) == {};
    moves := Step([], Run(Insert(row)));
    assert Affected(map[], Insert(row)) == {row.id} && Apply(map[], Insert(row)) == map[row.id := row];
    assert [] + [Insert(row)] == log;
  }

  lemma CommitTake(moves: seq<Move>, log: Log, id: TaskId, row: Row, queue: string) returns (more: Log)
    requires Feasible(moves) && Tokens(log) == {}
    requires Reach(moves)
          == OneRow(log, id, row, Some(Opened(queue, 0).(stage := Selected, pick := Some((id, row.fencing)))))
    ensures Enabled(Reach(moves), Commit(0, "a", 1)) && Tokens(more) <= {"a"}
    ensures Next(Reach(moves), Commit(0, "a", 1)) == OneRow(more, id, Taken(row, "a", 1, 0), None)
  {
    hide Reach, Feasible, Tokens;
    var x := Opened(queue, 0).(stage := Selected, pick := Some((id, row.fencing)));
    var recovered := log + [Cancels(x, {})] + [Exhausts(x, {})];
    TokensGrow(log, Cancels(x, {}));
    TokensGrow(log + [Cancels(x, {})], Exhausts(x, {}));
    TokensGrow(recovered, GuardedUpdate(x, "a", 1));
    assert recovered == log + [Cancels(x, {}), Exhausts(x, {})];
    assert map[id := row] + map[] == map[id := row];
    OneRowAfter(id, row, GuardedUpdate(x, "a", 1));
    more := recovered + [GuardedUpdate(x, "a", 1)];
  }

  /** A cancel on the only row while the claim has it neither written nor picked. */
  lemma CancelOne(moves: seq<Move>, log: Log, id: TaskId, r: Row, x: Option<Tx>, now: int) returns (more: seq<Move>)
    requires Feasible(moves) && Reach(moves) == OneRow(log, id, r, x)
    requires r.status == Processing && (x.Some? ==> Owned(x.value) == {})
    ensures Feasible(more) && Reach(more) == OneRow(log + [Cancel(id, now)], id, CancelMarked(r, now), x)
  {
    hide Reach, Feasible;
    assert LockedRows(Reach(moves)) == {};
    OneRowAfter(id, r, Cancel(id, now));
    more := Step(moves, Run(Cancel(id, now)));
  }

  /**
    Row locks do not save a cancellation that is requested between the two recovery updates of a claim: the row
    is not locked yet when the request comes, and the second update then fails it.
   */
  lemma CancelIsLostUnderLocks(row: Row) returns (moves: seq<Move>)
    requires Newborn(row) && row.maxAttempts == 1 && row.availableAt <= 0
    ensures Feasible(moves) && MarkedWith(Reach(moves).table, row.id, Failed)
  {
    var log;
    moves, log := ClaimedRun(row);
    hide Reach, Feasible;
    var id, q, r := row.id, row.queue, Taken(row, "a", 1, 0);
    var marked := CancelMarked(r, 1);
    moves := BeginOne(moves, log, id, r, q, 1);
    moves := CancelOne(moves, log, id, r, Some(Opened(q, 1)), 1);
    TokensGrow(log, Cancel(id, 1));
    log := log + [Cancel(id, 1)];
    moves := RecoverOne(moves, log, id, marked, q, 1);
    var exhausted := Updated(marked, RecoverExhausted(q, 1, {id}));
    var x := Opened(q, 1).(stage := Recovered, exhausted := {id}, writes := map[id := exhausted]);
    moves := SelectOne(moves, log, id, marked, x);
    moves := Step(moves, Commit(0, "b", 2));
  }

  /** A claim can be made to wait: another one has canceled an expired row and has not committed yet. */
  lemma ClaimsCanWait(row: Row) returns (moves: seq<Move>)
    requires Newborn(row) && row.maxAttempts == 1 && row.availableAt <= 0
    ensures Feasible(moves) && 1 !in Reach(moves).open && !Enabled(Reach(moves), Begin(1, row.queue, 1))
  {
    var log;
    moves, log := ClaimedRun(row);
    hide Reach, Feasible;
    var id, q, r := row.id, row.queue, Taken(row, "a", 1, 0);
    moves := CancelOne(moves, log, id, r, None, 1);
    log := log + [Cancel(id, 1)];
    moves := BeginOne(moves, log, id, CancelMarked(r, 1), q, 1);
    assert id in Found(Reach(moves).table, RecoverCanceled(q, 1, {id})) && Reach(moves).table.Keys == {id};
    assert id in Owned(Reach(moves).open[0]);
    assert id in LockedRows(Reach(moves));
  }
}
