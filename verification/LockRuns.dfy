/**
  Whole runs of claim transactions under row locks: what an open claim still relies on from its own earlier moves,
  which cancellations its commit loses, and why claims that wait for each other always get on.
 */
module LockRuns {
  import opened Common
  import opened Tasks
  import opened Runs
  import opened Fencing
  import opened Lifetimes
  import opened Locks

  // ------------------------------------------------------------ positions in a run

  lemma {:induction false} MoveAt(moves: seq<Move>, n: nat)
    requires Feasible(moves) && n < |moves|
    ensures Feasible(moves[..n]) && Feasible(moves[..n + 1]) && Enabled(Reach(moves[..n]), moves[n])
    ensures Reach(moves[..n + 1]) == Next(Reach(moves[..n]), moves[n])
  {
    var last := |moves| - 1;
    if n < last {
      MoveAt(moves[..last], n);
      assert moves[..last][..n] == moves[..n] && moves[..last][..n + 1] == moves[..n + 1];
    } else {
      assert moves[..n + 1] == moves;
    }
  }

  lemma FeasiblePrefix(moves: seq<Move>, n: nat)
    requires Feasible(moves) && n <= |moves|
    ensures Feasible(moves[..n])
  {
    if n < |moves| {
      MoveAt(moves, n);
    } else {
      assert moves[..n] == moves;
    }
  }

  /** The system before the move at position n. */
  function SystemAt(moves: seq<Move>, n: nat): (sys: System)
    requires Feasible(moves) && n <= |moves|
    ensures LockInv(sys)
  {
    FeasiblePrefix(moves, n);
    LockedRunsAreLegal(moves[..n]);
    Reach(moves[..n])
  }

  /** The position of the transaction's last first recovery update, and -1 if it has run none. */
  function LastBegin(moves: seq<Move>, tx: nat): (b: int)
    ensures -1 <= b < |moves|
    ensures b >= 0 ==> moves[b].Begin? && moves[b].tx == tx
  {
    if moves == [] then -1
    else
      var n := |moves| - 1;
      if moves[n].Begin? && moves[n].tx == tx then n else LastBegin(moves[..n], tx)
  }

  /** The position of its last second recovery update. */
  function LastRest(moves: seq<Move>, tx: nat): (k: int)
    ensures -1 <= k < |moves|
    ensures k >= 0 ==> moves[k] == RecoverRest(tx)
  {
    if moves == [] then -1
    else
      var n := |moves| - 1;
      if moves[n] == RecoverRest(tx) then n else LastRest(moves[..n], tx)
  }

  // ------------------------------------------------------------ what an open claim still relies on

  /** The transaction is further on, and the committed versions of the rows it rewrote are the same. */
  predicate Continues(t: Table, x: Tx, u: Table, y: Tx) {
    && y.queue == x.queue && y.now == x.now && y.canceled == x.canceled
    && (x.stage != Begun ==> y.stage != Begun && y.exhausted == x.exhausted)
    && forall id :: id in x.canceled + x.exhausted ==> id in t && id in u && u[id] == t[id]
  }

  lemma ContinuesItself(sys: System, tx: nat)
    requires LockInv(sys) && tx in sys.open
    ensures Continues(sys.table, sys.open[tx], sys.table, sys.open[tx])
  {
    hide Legal, Replay;
  }

  lemma ContinuesFurther(t: Table, x: Tx, u: Table, y: Tx, v: Table, z: Tx)
    requires Continues(t, x, u, y) && Continues(u, y, v, z) && (x.stage == Begun ==> x.exhausted == {})
    ensures Continues(t, x, v, z)
  {
  }

  lemma RunContinues(sys: System, s: Stmt, tx: nat)
    requires LockInv(sys) && Enabled(sys, Run(s)) && tx in sys.open
    ensures Continues(sys.table, sys.open[tx], Apply(sys.table, s), sys.open[tx])
  {
    hide Legal, Replay, Tokens, TxOk, Apply, Affected;
    OwnedInTable(sys.table, sys.open[tx]);
    forall id | id in Owned(sys.open[tx])
      ensures id in Apply(sys.table, s) && Apply(sys.table, s)[id] == sys.table[id]
    {
      assert id in LockedRows(sys);
      UnaffectedRow(sys.table, s, id);
    }
  }

  lemma CommitContinues(sys: System, o: nat, token: string, expires: int, tx: nat)
    requires LockInv(sys) && Enabled(sys, Commit(o, token, expires)) && tx in sys.open && tx != o
    ensures Continues(sys.table, sys.open[tx], Committed(sys, sys.open[o], token, expires).0, sys.open[tx])
  {
    hide Legal, Replay, Tokens, TxOk, Committed;
    OwnedInTable(sys.table, sys.open[tx]);
    CommitOk(sys, sys.open[o], token, expires);
    assert forall id :: id in Owned(sys.open[tx]) ==> id !in Owned(sys.open[o]);
  }

  lemma OpenStep(sys: System, m: Move, tx: nat)
    requires LockInv(sys) && Enabled(sys, m) && tx in Next(sys, m).open && !(m.Begin? && m.tx == tx)
    ensures tx in sys.open
    ensures Continues(sys.table, sys.open[tx], Next(sys, m).table, Next(sys, m).open[tx])
  {
    hide Legal, Replay, Tokens, TxOk, Apply, View, Committed, LockInv;
    assert tx in sys.open;
    ContinuesItself(sys, tx);
    match m
    case Run(s) => RunContinues(sys, s, tx);
    case Commit(o, token, expires) => CommitContinues(sys, o, token, expires, tx);
    case _ =>
  }

  /** Since its first update an open claim has been open, and the rows it rewrote are committed as they were. */
  lemma {:induction false} OpenSince(moves: seq<Move>, tx: nat, n: nat)
    requires Feasible(moves) && tx in Reach(moves).open && LastBegin(moves, tx) < n <= |moves|
    ensures tx in SystemAt(moves, n).open
    ensures Continues(SystemAt(moves, n).table, SystemAt(moves, n).open[tx], Reach(moves).table, Reach(moves).open[tx])
    decreases |moves|
  {
    hide Legal, Replay, Tokens, TxOk, Next, Enabled, Continues;
    LockedRunsAreLegal(moves);
    if n == |moves| {
      assert moves[..n] == moves;
      ContinuesItself(Reach(moves), tx);
    } else {
      var last := |moves| - 1;
      var before := moves[..last];
      MoveAt(moves, last);
      LockedRunsAreLegal(before);
      assert moves[..last + 1] == moves && before[..n] == moves[..n];
      OpenStep(Reach(before), moves[last], tx);
      OpenSince(before, tx, n);
      BegunHasExhaustedNone(SystemAt(moves, n), tx);
      ContinuesFurther(SystemAt(moves, n).table, SystemAt(moves, n).open[tx], Reach(before).table,
                       Reach(before).open[tx], Reach(moves).table, Reach(moves).open[tx]);
    }
  }

  lemma BegunHasExhaustedNone(sys: System, tx: nat)
    requires LockInv(sys) && tx in sys.open
    ensures sys.open[tx].stage == Begun ==> sys.open[tx].exhausted == {}
  {
    hide Legal, Replay;
  }

  lemma OpenHasBegun(moves: seq<Move>, tx: nat)
    requires Feasible(moves) && tx in Reach(moves).open
    ensures LastBegin(moves, tx) >= 0
  {
    hide Legal, Replay, LastBegin, LockInv, Continues;
    if LastBegin(moves, tx) < 0 {
      OpenSince(moves, tx, 0);
      NoneOpenAtFirst(moves);
    }
  }

  lemma NoneOpenAtFirst(moves: seq<Move>)
    requires Feasible(moves)
    ensures SystemAt(moves, 0).open == map[]
  {
    assert moves[..0] == [];
  }

  lemma OpenedBy(sys: System, m: Move)
    requires Enabled(sys, m) && m.Begin?
    ensures m.tx in Next(sys, m).open
    ensures var x := Next(sys, m).open[m.tx];
      && x.queue == m.queue && x.now == m.now
      && x.canceled == Found(sys.table, RecoverCanceled(m.queue, m.now, sys.table.Keys))
  {
    hide Found, Versions;
  }

  /** An open claim has run its first update, on the rows that it found in the table of that time. */
  lemma BeginOf(moves: seq<Move>, tx: nat)
    requires Feasible(moves) && tx in Reach(moves).open
    ensures var b, x := LastBegin(moves, tx), Reach(moves).open[tx];
      && b >= 0 && moves[b] == Begin(tx, x.queue, x.now) && Enabled(SystemAt(moves, b), moves[b])
      && x.canceled == Found(SystemAt(moves, b).table, RecoverCanceled(x.queue, x.now, SystemAt(moves, b).table.Keys))
  {
    hide Legal, Replay, TxOk, LockInv, Reach, Feasible, Found, LastBegin, Next, Enabled;
    OpenHasBegun(moves, tx);
    var b := LastBegin(moves, tx);
    MoveAt(moves, b);
    OpenedBy(SystemAt(moves, b), moves[b]);
    OpenSince(moves, tx, b + 1);
  }

  lemma {:induction false} RestAfterBegin(moves: seq<Move>, tx: nat)
    requires Feasible(moves) && tx in Reach(moves).open && Reach(moves).open[tx].stage != Begun
    ensures LastBegin(moves, tx) < LastRest(moves, tx)
    decreases |moves|
  {
    hide Legal, Replay, Tokens, TxOk, View, Found, Versions, Committed, Apply;
    if moves != [] {
      var last := |moves| - 1;
      MoveAt(moves, last);
      assert moves[..last + 1] == moves;
      if moves[last] != RecoverRest(tx) {
        RestAfterBegin(moves[..last], tx);
      }
    }
  }

  /** What a claim past its second update relies on: the rows that update found, in the table of that time. */
  lemma RestOf(moves: seq<Move>, tx: nat)
    requires Feasible(moves) && tx in Reach(moves).open && Reach(moves).open[tx].stage != Begun
    ensures var k, x := LastRest(moves, tx), Reach(moves).open[tx];
      && LastBegin(moves, tx) < k && tx in SystemAt(moves, k).open
      && Continues(SystemAt(moves, k).table, SystemAt(moves, k).open[tx], Reach(moves).table, x)
      && x.exhausted == FoundByRest(moves, tx, k)
      && forall id :: id in x.exhausted ==>
           id in Reach(moves).table && Reach(moves).table[id] == SystemAt(moves, k).table[id]
  {
    hide Legal, Replay, Tokens, TxOk, Reach, Feasible, Found, Versions, View;
    RestAfterBegin(moves, tx);
    var k := LastRest(moves, tx);
    MoveAt(moves, k);
    OpenSince(moves, tx, k);
    OpenSince(moves, tx, k + 1);
  }

  /** The rows that the second recovery update at position k finds. */
  function FoundByRest(moves: seq<Move>, tx: nat, k: nat): (rows: set<TaskId>)
    requires Feasible(moves) && k <= |moves| && tx in SystemAt(moves, k).open
    ensures rows <= SystemAt(moves, k).table.Keys
  {
    var sys := SystemAt(moves, k);
    ViewKeys(sys, sys.open[tx]);
    Found(View(sys, sys.open[tx]), Exhausts(sys.open[tx], View(sys, sys.open[tx]).Keys))
  }

  // ------------------------------------------------------------ waiting claims get on

  /** When a claim's first update ran, it found none of the rows that an earlier open claim had canceled. */
  lemma EarlierRowsNotMet(moves: seq<Move>, a: nat, b: nat, id: TaskId)
    requires Feasible(moves) && a in Reach(moves).open && b in Reach(moves).open
    requires LastBegin(moves, a) < LastBegin(moves, b) && id in Reach(moves).open[a].canceled
    ensures Reach(moves).open[a].queue == Reach(moves).open[b].queue ==>
      id in Reach(moves).table && !Expired(Reach(moves).table[id], Reach(moves).open[b].now)
  {
    hide Legal, Replay, Tokens, TxOk, Reach, Feasible;
    var n := LastBegin(moves, b);
    var sys, x := SystemAt(moves, n), Reach(moves).open[b];
    BeginOf(moves, b);
    OpenSince(moves, a, n);
    assert id in LockedRows(sys) by {
      assert id in Owned(sys.open[a]);
    }
    CanceledRow(sys, a, id);
    assert id !in Found(sys.table, RecoverCanceled(x.queue, x.now, sys.table.Keys));
  }

  lemma CanceledRow(sys: System, tx: nat, id: TaskId)
    requires LockInv(sys) && tx in sys.open && id in sys.open[tx].canceled
    ensures id in sys.table && Hits(id, sys.table[id], Cancels(sys.open[tx], {id}))
  {
    hide Legal, Replay;
    assert Hits(id, sys.table[id], Cancels(sys.open[tx], sys.open[tx].canceled));
  }

  /** A claim that has only begun waits for no claim that has only begun before it: such waits point forward. */
  lemma WaitsPointForward(moves: seq<Move>, tx: nat, o: nat, id: TaskId)
    requires Feasible(moves) && tx in Reach(moves).open && o != tx
    requires var x := Reach(moves).open[tx]; RewritesExpired(Reach(moves), o, id, x.queue, x.now)
    requires Reach(moves).open[o].stage == Begun
    ensures LastBegin(moves, tx) < LastBegin(moves, o)
  {
    hide Legal, Replay, Tokens, TxOk, Reach, Feasible, LockInv, Enabled, Found, LastBegin, SystemAt;
    LockedRunsAreLegal(moves);
    BegunHasExhaustedNone(Reach(moves), o);
    BeginOf(moves, tx);
    BeginOf(moves, o);
    if LastBegin(moves, o) < LastBegin(moves, tx) {
      EarlierRowsNotMet(moves, o, tx, id);
    }
  }

  lemma LatestBegin(moves: seq<Move>, txs: set<nat>) returns (tx: nat)
    requires txs != {}
    ensures tx in txs && forall o :: o in txs ==> LastBegin(moves, o) <= LastBegin(moves, tx)
  {
    tx :| tx in txs;
    if txs != {tx} {
      var best := LatestBegin(moves, txs - {tx});
      assert forall o :: o in txs ==> o == tx || o in txs - {tx};
      if LastBegin(moves, tx) < LastBegin(moves, best) {
        tx := best;
      }
    }
  }

  lemma LongerThanAll(used: set<string>) returns (n: nat)
    ensures forall s :: s in used ==> |s| < n
  {
    if used == {} {
      n := 0;
    } else {
      var s :| s in used;
      n := LongerThanAll(used - {s});
      n := if n > |s| then n else |s| + 1;
      assert forall x :: x in used ==> x == s || x in used - {s};
    }
  }

  lemma FreshToken(used: set<string>) returns (token: string)
    ensures token != "" && token !in used
  {
    var n := LongerThanAll(used);
    token := seq(n + 1, i => 'a');
  }

  /** The next move of an open claim, other than giving up. */
  predicate Advances(sys: System, m: Move) {
    (m.RecoverRest? || m.SelectLocked? || m.Commit?) && m.tx in sys.open && Enabled(sys, m)
  }

  lemma PastBegunAdvances(sys: System, tx: nat) returns (m: Move)
    requires tx in sys.open && sys.open[tx].stage != Begun
    ensures Advances(sys, m)
  {
    if sys.open[tx].stage == Recovered {
      m := SelectLocked(tx);
    } else {
      var token := FreshToken(Tokens(sys.log));
      m := Commit(tx, token, 0);
    }
  }

  /** Claims never deadlock: in every reachable system with an open claim, one of them can go on. */
  lemma ClaimsNeverDeadlock(moves: seq<Move>) returns (m: Move)
    requires Feasible(moves) && Reach(moves).open != map[]
    ensures Advances(Reach(moves), m)
  {
    hide Legal, Replay, Tokens, TxOk, Reach, Feasible;
    var sys := Reach(moves);
    var last := LatestBegin(moves, sys.open.Keys);
    m := RecoverRest(last);
    if sys.open[last].stage != Begun {
      m := PastBegunAdvances(sys, last);
    } else if !Enabled(sys, m) {
      var x := sys.open[last];
      SecondRecoveryWaitsExactly(moves, last);
      var o, id :| o != last && RewritesExpired(sys, o, id, x.queue, x.now);
      if sys.open[o].stage == Begun {
        WaitsPointForward(moves, last, o, id);
      }
      m := PastBegunAdvances(sys, o);
    }
  }

  function AtStage(open: map<nat, Tx>, stage: Stage): set<nat> {
    set tx | tx in open && open[tx].stage == stage
  }

  lemma StageLeft(open: map<nat, Tx>, tx: nat, y: Tx, stage: Stage)
    requires tx in open && y.stage != stage
    ensures AtStage(open[tx := y], stage) == AtStage(open, stage) - {tx}
    ensures open[tx := y].Keys == open.Keys
  {
  }

  /** Claims ahead of their commit, of their select, of their second update: the first that changes gets less. */
  predicate FewerMovesLeft(a: map<nat, Tx>, b: map<nat, Tx>) {
    |b.Keys| < |a.Keys| ||
    (|b.Keys| == |a.Keys| &&
     (|AtStage(b, Begun)| < |AtStage(a, Begun)| ||
      (|AtStage(b, Begun)| == |AtStage(a, Begun)| && |AtStage(b, Recovered)| < |AtStage(a, Recovered)|)))
  }

  lemma AdvancesLeaveFewer(sys: System, m: Move)
    requires Advances(sys, m)
    ensures FewerMovesLeft(sys.open, Next(sys, m).open)
  {
    hide Legal, Replay, Tokens, View, Found, Versions, Committed, LockedByOthers, Select, AtStage;
    var open, rest := sys.open, Next(sys, m).open;
    match m
    case RecoverRest(tx) =>
      StageLeft(open, tx, rest[tx], Begun);
      assert tx in AtStage(open, Begun) by { StageMember(open, tx); }
    case SelectLocked(tx) =>
      StageLeft(open, tx, rest[tx], Begun);
      StageLeft(open, tx, rest[tx], Recovered);
      StageMember(open, tx);
    case Commit(tx, _, _) =>
      assert rest.Keys == open.Keys - {tx};
  }

  lemma StageMember(open: map<nat, Tx>, tx: nat)
    requires tx in open
    ensures forall stage :: tx in AtStage(open, stage) <==> open[tx].stage == stage
  {
  }

  lemma AdvanceOnce(moves: seq<Move>) returns (more: seq<Move>)
    requires Feasible(moves) && Reach(moves).open != map[]
    ensures |more| == |moves| + 1 && moves <= more && Feasible(more)
    ensures var m := more[|moves|]; m.RecoverRest? || m.SelectLocked? || m.Commit?
    ensures FewerMovesLeft(Reach(moves).open, Reach(more).open)
  {
    hide Legal, Replay, Tokens, TxOk, Reach, Feasible, Next, FewerMovesLeft, Enabled, LockInv;
    var m := ClaimsNeverDeadlock(moves);
    AdvancesLeaveFewer(Reach(moves), m);
    more := Step(moves, m);
  }

  /** From every reachable system all open claims can be brought to their commits by their own moves alone. */
  lemma OpenClaimsCommit(moves: seq<Move>) returns (more: seq<Move>)
    requires Feasible(moves)
    ensures moves <= more && Feasible(more) && Reach(more).open == map[]
    ensures forall i :: |moves| <= i < |more| ==> more[i].RecoverRest? || more[i].SelectLocked? || more[i].Commit?
    decreases |Reach(moves).open.Keys|, |AtStage(Reach(moves).open, Begun)|, |AtStage(Reach(moves).open, Recovered)|
  {
    hide Reach, Feasible, AtStage;
    more := moves;
    if Reach(moves).open != map[] {
      more := AdvanceOnce(moves);
      more := OpenClaimsCommit(more);
    }
  }

  // ------------------------------------------------------------ which cancellations are lost

  predicate Marked(t: Table, id: TaskId) {
    id in t && t[id].cancelRequested.Some?
  }

  /** The row comes to be failed although its cancellation was requested. */
  predicate LosesCancel(before: Table, after: Table, id: TaskId) {
    MarkedWith(after, id, Failed) && !MarkedWith(before, id, Failed)
  }

  lemma ExhaustedRow(t: Table, x: Tx, id: TaskId)
    requires TxOk(t, x) && id in x.exhausted
    ensures id in t && Hits(id, t[id], Exhausts(x, {id}))
  {
    assert Hits(id, t[id], Exhausts(x, x.exhausted));
  }

  lemma PublishedLoses(t: Table, x: Tx, id: TaskId, token: string, expires: int)
    requires TxOk(t, x) && id in t
    ensures MarkedWith(map[id := Published(x, id, t[id], token, expires)], id, Failed) && !MarkedWith(t, id, Failed)
      <==> id in x.exhausted && Marked(t, id)
  {
    if id in x.exhausted {
      ExhaustedRow(t, x, id);
    }
    DisjointRecoveries(t, x, id);
  }

  lemma CommitLoses(sys: System, x: Tx, token: string, expires: int, id: TaskId)
    requires TxOk(sys.table, x)
    ensures LosesCancel(sys.table, Committed(sys, x, token, expires).0, id)
      <==> id in x.exhausted && Marked(sys.table, id)
  {
    hide TxOk, Committed, Published;
    PublishedRows(sys, x, token, expires);
    if id in sys.table {
      PublishedLoses(sys.table, x, id, token, expires);
    } else if id in x.exhausted {
      ExhaustedRow(sys.table, x, id);
    }
  }

  /** The row was marked in the table in which the claim's second update found it. */
  predicate FoundMarked(moves: seq<Move>, tx: nat, id: TaskId)
    requires Feasible(moves)
  {
    var k := LastRest(moves, tx);
    k >= 0 && tx in SystemAt(moves, k).open && id in FoundByRest(moves, tx, k) && Marked(SystemAt(moves, k).table, id)
  }

  /** The row was marked by a statement that another session committed between the two updates of the claim. */
  predicate MarkedBetween(moves: seq<Move>, tx: nat, id: TaskId)
    requires Feasible(moves)
  {
    var b, k := LastBegin(moves, tx), LastRest(moves, tx);
    && 0 <= b < k && tx in SystemAt(moves, k).open && id in FoundByRest(moves, tx, k)
    && var log := SystemAt(moves, k).log;
    exists j :: |SystemAt(moves, b).log| <= j < |log| && MarksLate(log, j, |log|, id)
  }

  lemma {:induction false} LogGrows(moves: seq<Move>, n: nat)
    requires Feasible(moves) && n <= |moves|
    ensures SystemAt(moves, n).log <= Reach(moves).log
    decreases |moves|
  {
    hide Legal, Replay, Tokens, TxOk, Apply, View, Found;
    if n == |moves| {
      assert moves[..n] == moves;
    } else {
      var last := |moves| - 1;
      MoveAt(moves, last);
      assert moves[..last + 1] == moves && moves[..last][..n] == moves[..n];
      LogGrows(moves[..last], n);
    }
  }

  lemma LogBetween(moves: seq<Move>, b: nat, k: nat)
    requires Feasible(moves) && b <= k <= |moves|
    ensures var log, i := SystemAt(moves, k).log, |SystemAt(moves, b).log|;
      && Legal(log) && i <= |log|
      && At(log, i) == SystemAt(moves, b).table && At(log, |log|) == SystemAt(moves, k).table
  {
    hide Legal, Replay, Tokens, TxOk, Reach, Feasible;
    FeasiblePrefix(moves, k);
    LogGrows(moves[..k], b);
    assert moves[..k][..b] == moves[..b];
    var log, i := SystemAt(moves, k).log, |SystemAt(moves, b).log|;
    assert log[..i] == SystemAt(moves, b).log && log[..|log|] == log;
  }

  /** A row that the second update finds was not one for the first; if marked by then, it now would be. */
  lemma FoundSecondNotFirst(moves: seq<Move>, tx: nat, id: TaskId)
    requires Feasible(moves) && tx in Reach(moves).open && Reach(moves).open[tx].stage != Begun
    ensures var b, k, x := LastBegin(moves, tx), LastRest(moves, tx), Reach(moves).open[tx];
      && 0 <= b < k && tx in SystemAt(moves, k).open
      && (id in FoundByRest(moves, tx, k) && id in SystemAt(moves, b).table ==>
            !MarkedAndLapsed(SystemAt(moves, b).table[id], x.queue, x.now))
      && (id in FoundByRest(moves, tx, k) && Marked(SystemAt(moves, k).table, id) ==>
            MarkedAndLapsed(SystemAt(moves, k).table[id], x.queue, x.now))
  {
    hide Legal, Replay, Tokens, TxOk, Reach, Feasible, View, SystemAt, LastRest, LastBegin;
    BeginOf(moves, tx);
    RestOf(moves, tx);
    var sys := SystemAt(moves, LastRest(moves, tx));
    ViewKeys(sys, sys.open[tx]);
    RestIsUnwritten(sys, sys.open[tx]);
  }

  /** A row was marked when it was found exactly if a cancel or heartbeat on it was accepted since the first update. */
  lemma LostExactlyWhenMarkedBetween(moves: seq<Move>, tx: nat, id: TaskId)
    requires Feasible(moves) && tx in Reach(moves).open && Reach(moves).open[tx].stage != Begun
    ensures FoundMarked(moves, tx, id) <==> MarkedBetween(moves, tx, id)
  {
    hide Legal, Replay, Tokens, TxOk, Reach, Feasible, View, SystemAt, LastRest, LastBegin, FoundByRest;
    FoundSecondNotFirst(moves, tx, id);
    var b, k, x := LastBegin(moves, tx), LastRest(moves, tx), Reach(moves).open[tx];
    var log := SystemAt(moves, k).log;
    LogBetween(moves, b, k);
    if FoundMarked(moves, tx, id) {
      LateMarkExists(log, |SystemAt(moves, b).log|, |log|, id, x.queue, x.now);
    }
    forall j | 0 <= j < |log| && MarksLate(log, j, |log|, id) ensures Marked(SystemAt(moves, k).table, id) {
      LateMarkStays(log, j, |log|, id);
      assert id in At(log, |log|);
    }
  }

  /**
    A commit loses a cancellation exactly if the row was marked when the claim's second update found it, which is
    exactly if it was marked between the two updates.
   */
  lemma CancelIsLostExactly(moves: seq<Move>, tx: nat, token: string, expires: int, id: TaskId)
    requires Feasible(moves) && Enabled(Reach(moves), Commit(tx, token, expires))
    ensures var lost := LosesCancel(Reach(moves).table, Next(Reach(moves), Commit(tx, token, expires)).table, id);
      (lost <==> FoundMarked(moves, tx, id)) && (lost <==> MarkedBetween(moves, tx, id))
  {
    hide Legal, Replay, Tokens, TxOk, Reach, Feasible, Committed, View, SystemAt, LastRest, FoundByRest;
    hide LosesCancel, MarkedBetween;
    LockedRunsAreLegal(moves);
    CommitLoses(Reach(moves), Reach(moves).open[tx], token, expires, id);
    RestOf(moves, tx);
    LostExactlyWhenMarkedBetween(moves, tx, id);
  }

  lemma PublishedHonors(t: Table, x: Tx, id: TaskId, token: string, expires: int)
    requires TxOk(t, x) && id in t && Honored(t[id])
    ensures Honored(Published(x, id, t[id], token, expires)) <==> !(id in x.exhausted && Marked(t, id))
  {
    DisjointRecoveries(t, x, id);
  }

  lemma CommitHonorsExactly(sys: System, x: Tx, token: string, expires: int)
    requires TxOk(sys.table, x) && CancellationsHonored(sys.table)
    ensures var after := Committed(sys, x, token, expires).0;
      CancellationsHonored(after) <==> forall id :: !LosesCancel(sys.table, after, id)
  {
    hide TxOk, Committed, Published, Honored, LosesCancel;
    var after := Committed(sys, x, token, expires).0;
    PublishedRows(sys, x, token, expires);
    forall id ensures LosesCancel(sys.table, after, id) <==> id in sys.table && !Honored(after[id]) {
      CommitLoses(sys, x, token, expires, id);
      if id in sys.table {
        PublishedHonors(sys.table, x, id, token, expires);
      } else if id in x.exhausted {
        ExhaustedRow(sys.table, x, id);
      }
    }
  }

  lemma MoveHonorsExactly(sys: System, m: Move)
    requires LockInv(sys) && Enabled(sys, m) && CancellationsHonored(sys.table)
    ensures CancellationsHonored(Next(sys, m).table)
      <==> (m.Commit? ==> forall id :: !LosesCancel(sys.table, Next(sys, m).table, id))
  {
    hide Legal, Replay, Tokens, TxOk, Committed, LosesCancel, CancellationsHonored, Apply, View, TableInv;
    match m
    case Run(s) =>
      RunKeepsInv(sys.log);
      StepHonorsExactly(sys.table, Tokens(sys.log), s);
    case Commit(tx, token, expires) => CommitHonorsExactly(sys, sys.open[tx], token, expires);
    case _ =>
  }

  /** The commit at position n loses the cancellation of this row. */
  predicate LostAt(moves: seq<Move>, n: nat, id: TaskId)
    requires Feasible(moves) && n < |moves|
  {
    FeasiblePrefix(moves, n);
    moves[n].Commit? && MarkedBetween(moves[..n], moves[n].tx, id)
  }

  lemma HonorsAtExactly(moves: seq<Move>, n: nat)
    requires Feasible(moves) && n < |moves| && CancellationsHonored(SystemAt(moves, n).table)
    ensures CancellationsHonored(SystemAt(moves, n + 1).table) <==> forall id :: !LostAt(moves, n, id)
  {
    hide Legal, Replay, Tokens, TxOk, Reach, Feasible, LosesCancel, CancellationsHonored, MarkedBetween, FoundMarked;
    hide Next, Enabled;
    MoveAt(moves, n);
    var sys, after := SystemAt(moves, n), SystemAt(moves, n + 1);
    MoveHonorsExactly(sys, moves[n]);
    assert after == Next(sys, moves[n]);
    if moves[n].Commit? {
      forall id ensures LostAt(moves, n, id) <==> LosesCancel(sys.table, after.table, id) {
        CancelIsLostExactly(moves[..n], moves[n].tx, moves[n].token, moves[n].expires, id);
      }
    } else {
      assert forall id :: !LostAt(moves, n, id);
    }
  }

  predicate AlwaysCommittedHonored(moves: seq<Move>)
    requires Feasible(moves)
  {
    forall n :: 0 <= n <= |moves| ==> CancellationsHonored(SystemAt(moves, n).table)
  }

  ghost predicate NoneLost(moves: seq<Move>)
    requires Feasible(moves)
  {
    forall n, id :: 0 <= n < |moves| ==> !LostAt(moves, n, id)
  }

  /** All committed tables honor their cancellations exactly when no commit loses one in that way. */
  lemma LockedRunsHonorExactly(moves: seq<Move>)
    requires Feasible(moves)
    ensures AlwaysCommittedHonored(moves) <==> NoneLost(moves)
  {
    hide Feasible, LostAt, CancellationsHonored, SystemAt;
    if AlwaysCommittedHonored(moves) {
      forall n, id | 0 <= n < |moves| ensures !LostAt(moves, n, id) {
        HonorsAtExactly(moves, n);
      }
    }
    if NoneLost(moves) {
      forall n | 0 <= n <= |moves| ensures CancellationsHonored(SystemAt(moves, n).table) {
        NoneLostMeansHonored(moves, n);
      }
    }
  }

  lemma {:induction false} NoneLostMeansHonored(moves: seq<Move>, n: nat)
    requires Feasible(moves) && n <= |moves| && NoneLost(moves)
    ensures CancellationsHonored(SystemAt(moves, n).table)
    decreases n
  {
    hide Feasible, LostAt, Legal, Replay;
    if n > 0 {
      NoneLostMeansHonored(moves, n - 1);
      HonorsAtExactly(moves, n - 1);
    }
  }
}
