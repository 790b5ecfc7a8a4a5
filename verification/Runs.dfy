/**
  Runs of the task table: any interleaving, statement by statement, of any number of workers and
  operators, with any clock readings. A log lists the statements in the order they took effect.
 */
module Runs {
  import opened Common
  import opened Tasks

  type Log = seq<Stmt>

  /** The table that a log leaves behind, from an empty table. */
  function Replay(log: Log): Table {
    if log == [] then map[] else Apply(Replay(log[..|log| - 1]), log[|log| - 1])
  }

  /** The lease tokens drawn so far. */
  function Tokens(log: Log): set<string> {
    set i | 0 <= i < |log| && log[i].Take? :: log[i].token
  }

  /**
    What the driver guarantees about a statement it issues: inserted rows are new, and a claim takes a
    row its locked select returned, under a token never drawn before. Holders may present any claim.
   */
  predicate LegalStmt(t: Table, used: set<string>, s: Stmt) {
    match s
    case Insert(row) => Newborn(row)
    case Take(queue, now, id, fencing, token, _) =>
      token != "" && token !in used && id in t && Claimable(t[id], queue, now) && t[id].fencing == fencing
    case _ => true
  }

  predicate Legal(log: Log) {
    log == [] ||
    (Legal(log[..|log| - 1]) &&
     LegalStmt(Replay(log[..|log| - 1]), Tokens(log[..|log| - 1]), log[|log| - 1]))
  }

  /** The table before the statement at position i. */
  function At(log: Log, i: nat): Table
    requires i <= |log|
  {
    Replay(log[..i])
  }

  lemma {:induction false} Unroll(log: Log, i: nat)
    requires Legal(log) && i < |log|
    ensures At(log, i + 1) == Apply(At(log, i), log[i])
    ensures Legal(log[..i]) && LegalStmt(At(log, i), Tokens(log[..i]), log[i])
    ensures Tokens(log[..i + 1]) == Tokens(log[..i]) + (if log[i].Take? then {log[i].token} else {})
    decreases |log|
  {
    assert log[..i + 1][..i] == log[..i];
    if i + 1 < |log| {
      var shorter := log[..|log| - 1];
      Unroll(shorter, i);
      assert shorter[..i] == log[..i] && shorter[..i + 1] == log[..i + 1];
    } else {
      assert log[..i + 1] == log;
      TokensGrow(log[..i], log[i]);
      assert log == log[..i] + [log[i]];
    }
  }

  lemma TokensGrow(log: Log, s: Stmt)
    ensures Tokens(log + [s]) == Tokens(log) + (if s.Take? then {s.token} else {})
  {
    var longer := log + [s];
    forall x | x in Tokens(log) + (if s.Take? then {s.token} else {}) ensures x in Tokens(longer) {
      if x in Tokens(log) {
        var i :| 0 <= i < |log| && log[i].Take? && log[i].token == x;
        assert longer[i] == log[i];
      } else {
        assert longer[|log|] == s;
      }
    }
  }

  lemma LegalPrefix(log: Log, i: nat)
    requires Legal(log) && i <= |log|
    ensures Legal(log[..i])
  {
    if i < |log| {
      Unroll(log, i);
    } else {
      assert log[..i] == log;
    }
  }

  // ------------------------------------------------------------ the inductive invariant

  predicate RowInv(r: Row) {
    && r.maxAttempts >= 1 && r.attempts <= r.maxAttempts && r.attempts <= r.fencing
    && (r.status == Processing <==> r.leaseToken != "")
    && (r.status == Processing <==> r.leaseExpires.Some?)
    && (r.status == Processing ==> r.attempts >= 1)
    && (r.status == Completed <==> r.completedAt.Some?)
    && (r.status == Failed <==> r.failedAt.Some?)
    && (r.status == Canceled ==> r.cancelRequested.Some?)
    && (r.status == Completed ==> r.cancelRequested.None?)
    && (r.status == Completed ==> r.completedAt == Some(r.updatedAt))
    && (r.status == Failed ==> r.failedAt == Some(r.updatedAt))
  }

  predicate RowsInv(t: Table, used: set<string>) {
    forall id :: id in t ==>
      t[id].id == id && RowInv(t[id]) && (t[id].leaseToken != "" ==> t[id].leaseToken in used)
  }

  predicate TokensUnique(t: Table) {
    forall a, b :: a in t && b in t && a != b && t[a].leaseToken != "" ==> t[a].leaseToken != t[b].leaseToken
  }

  predicate KeysUnique(t: Table) {
    forall a, b :: a in t && b in t && a != b && t[a].key.Some? ==> !(t[a].queue == t[b].queue && t[a].key == t[b].key)
  }

  predicate TableInv(t: Table, used: set<string>) {
    RowsInv(t, used) && TokensUnique(t) && KeysUnique(t)
  }

  lemma RowStep(id: TaskId, r: Row, s: Stmt)
    requires RowInv(r)
    requires s.Take? && Hits(id, r, s) ==> s.token != "" && Claimable(r, s.queue, s.now)
    ensures RowInv(RowAfter(id, r, s))
  {
  }

  /** A statement never rewrites identity, queue, key or payload hash; only a claim draws a token. */
  lemma RowKeeps(id: TaskId, r: Row, s: Stmt)
    ensures var q := RowAfter(id, r, s);
      && q.id == r.id && q.queue == r.queue && q.key == r.key && q.hash == r.hash && q.maxAttempts == r.maxAttempts
      && (q.leaseToken in {r.leaseToken, ""} || (s.Take? && id == s.id && q.leaseToken == s.token))
  {
  }

  lemma StepKeepsRows(t: Table, used: set<string>, s: Stmt)
    requires RowsInv(t, used) && LegalStmt(t, used, s) && !s.Insert?
    ensures RowsInv(Apply(t, s), used + (if s.Take? then {s.token} else {}))
  {
    forall id | id in Apply(t, s)
      ensures RowInv(Apply(t, s)[id]) && Apply(t, s)[id].id == id
      ensures Apply(t, s)[id].leaseToken != "" ==>
                Apply(t, s)[id].leaseToken in used + (if s.Take? then {s.token} else {})
    {
      RowStep(id, t[id], s);
      RowKeeps(id, t[id], s);
    }
  }

  lemma StepKeepsTokensUnique(t: Table, used: set<string>, s: Stmt)
    requires RowsInv(t, used) && TokensUnique(t) && LegalStmt(t, used, s) && !s.Insert?
    ensures TokensUnique(Apply(t, s))
  {
    var u := Apply(t, s);
    forall a, b | a in u && b in u && a != b && u[a].leaseToken != "" ensures u[a].leaseToken != u[b].leaseToken {
      RowKeeps(a, t[a], s);
      RowKeeps(b, t[b], s);
      assert t[a].leaseToken != "" ==> t[a].leaseToken in used;
      assert t[b].leaseToken != "" ==> t[b].leaseToken in used;
    }
  }

  lemma StepKeepsKeysUnique(t: Table, s: Stmt)
    requires KeysUnique(t) && !s.Insert?
    ensures KeysUnique(Apply(t, s))
  {
    var u := Apply(t, s);
    forall a, b | a in u && b in u && a != b && u[a].key.Some?
      ensures !(u[a].queue == u[b].queue && u[a].key == u[b].key)
    {
      RowKeeps(a, t[a], s);
      RowKeeps(b, t[b], s);
    }
  }

  lemma StepKeepsInv(t: Table, used: set<string>, s: Stmt)
    requires TableInv(t, used) && LegalStmt(t, used, s)
    ensures TableInv(Apply(t, s), used + (if s.Take? then {s.token} else {}))
  {
    if !s.Insert? {
      StepKeepsRows(t, used, s);
      StepKeepsTokensUnique(t, used, s);
      StepKeepsKeysUnique(t, s);
    }
  }

  /** The row invariant holds after every legal run. */
  lemma {:induction false} RunKeepsInv(log: Log)
    requires Legal(log)
    ensures TableInv(Replay(log), Tokens(log))
  {
    if log != [] {
      var n := |log| - 1;
      RunKeepsInv(log[..n]);
      assert log == log[..n] + [log[n]];
      TokensGrow(log[..n], log[n]);
      StepKeepsInv(Replay(log[..n]), Tokens(log[..n]), log[n]);
    }
  }

  /** What the invariants say of one row of a reachable table, column by column. */
  lemma ReachableRow(log: Log, id: TaskId)
    requires Legal(log) && id in Replay(log)
    ensures var r := Replay(log)[id];
      && r.id == id && 1 <= r.maxAttempts && r.attempts <= r.maxAttempts && r.attempts <= r.fencing
      && (r.status == Processing <==> r.leaseToken != "") && (r.status == Processing <==> r.leaseExpires.Some?)
      && (r.status == Processing ==> r.attempts >= 1)
      && (r.completedAt == if r.status == Completed then Some(r.updatedAt) else None)
      && (r.failedAt == if r.status == Failed then Some(r.updatedAt) else None)
      && (r.status == Canceled ==> r.cancelRequested.Some?) && (r.status == Completed ==> r.cancelRequested.None?)
  {
    hide Replay, Legal;
    RunKeepsInv(log);
  }

  lemma InvAt(log: Log, i: nat)
    requires Legal(log) && i <= |log|
    ensures TableInv(At(log, i), Tokens(log[..i]))
  {
    LegalPrefix(log, i);
    RunKeepsInv(log[..i]);
  }
}
