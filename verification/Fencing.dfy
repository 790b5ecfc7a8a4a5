/** Fenced ownership: what a lease token is good for, over every run of the task table. */
module Fencing {
  import opened Common
  import opened Tasks
  import opened Runs

  /** The claim that the driver hands out for the statement at position m. */
  predicate Issued(log: Log, m: nat, c: Claim)
    requires m < |log|
  {
    log[m].Take? && c.id == log[m].id && c.leaseToken == log[m].token && c.fencing == log[m].fencing + 1
  }

  /** A drawn token that no row carries. */
  predicate Retired(t: Table, used: set<string>, token: string) {
    token != "" && token in used && forall id :: id in t ==> t[id].leaseToken != token
  }

  lemma RetiredStep(t: Table, used: set<string>, s: Stmt, token: string)
    requires LegalStmt(t, used, s) && Retired(t, used, token)
    ensures Retired(Apply(t, s), used + (if s.Take? then {s.token} else {}), token)
  {
    if !s.Insert? {
      forall id | id in Apply(t, s) ensures Apply(t, s)[id].leaseToken != token {
        RowKeeps(id, t[id], s);
      }
    }
  }

  lemma {:induction false} RetiredForever(log: Log, i: nat, j: nat, token: string)
    requires Legal(log) && i <= j <= |log|
    requires Retired(At(log, i), Tokens(log[..i]), token)
    ensures Retired(At(log, j), Tokens(log[..j]), token)
    decreases j - i
  {
    hide Legal, Replay, Tokens;
    if i < j {
      RetiredForever(log, i, j - 1, token);
      Unroll(log, j - 1);
      RetiredStep(At(log, j - 1), Tokens(log[..j - 1]), log[j - 1], token);
    }
  }

  lemma RetiredClaimIsRejected(t: Table, used: set<string>, c: Claim, s: Stmt)
    requires Retired(t, used, c.leaseToken) && (s.Settle? || s.SettleCancel? || s.Extend?) && s.claim == c
    ensures Affected(t, s) == {} && Apply(t, s) == t
  {
    UntouchedTable(t, s);
  }

  /** The statement that takes a row leaves it with the claim's holder and nobody else's token. */
  lemma IssueHolds(log: Log, m: nat, c: Claim)
    requires Legal(log) && m < |log| && Issued(log, m, c)
    ensures HeldBy(At(log, m + 1), c) && c.leaseToken != ""
    ensures c.leaseToken !in Tokens(log[..m])
    ensures Affected(At(log, m), log[m]) == {c.id}
  {
    hide Legal, Replay;
    Unroll(log, m);
  }

  /** The update of a claim affects its row only while the row has the fencing number that was read from it. */
  lemma TakeIsGuarded(t: Table, s: Stmt)
    requires s.Take?
    ensures Affected(t, s) == if s.id in t && t[s.id].fencing == s.fencing then {s.id} else {}
  {
  }

  lemma HeldOrRetiredStep(t: Table, used: set<string>, s: Stmt, c: Claim)
    requires TableInv(t, used) && LegalStmt(t, used, s)
    requires HeldBy(t, c)
    ensures var u := Apply(t, s);
      HeldBy(u, c) || Retired(u, used + (if s.Take? then {s.token} else {}), c.leaseToken)
  {
    var u := Apply(t, s);
    if !HeldBy(u, c) && !s.Insert? {
      forall id | id in u ensures u[id].leaseToken != c.leaseToken {
        RowKeeps(id, t[id], s);
        if id == c.id {
          RowStep(id, t[id], s);
        } else {
          assert t[c.id].leaseToken != t[id].leaseToken;
        }
      }
    }
  }

  /** From issue on, a claim is held on its own row or its token is retired for good. */
  lemma {:induction false} HeldOrRetired(log: Log, m: nat, k: nat, c: Claim)
    requires Legal(log) && m < k <= |log| && Issued(log, m, c)
    ensures HeldBy(At(log, k), c) || Retired(At(log, k), Tokens(log[..k]), c.leaseToken)
    decreases k - m
  {
    hide Legal, Replay, Tokens;
    if k == m + 1 {
      IssueHolds(log, m, c);
    } else {
      HeldOrRetired(log, m, k - 1, c);
      Unroll(log, k - 1);
      if HeldBy(At(log, k - 1), c) {
        InvAt(log, k - 1);
        HeldOrRetiredStep(At(log, k - 1), Tokens(log[..k - 1]), log[k - 1], c);
      } else {
        RetiredStep(At(log, k - 1), Tokens(log[..k - 1]), log[k - 1], c.leaseToken);
      }
    }
  }

  /** Once a claim is not held, every later call by its holder changes nothing, whatever happens between. */
  lemma StaleHolderIsFenced(log: Log, m: nat, k: nat, j: nat, c: Claim, s: Stmt)
    requires Legal(log) && m < k <= j <= |log| && Issued(log, m, c)
    requires !HeldBy(At(log, k), c) && (s.Settle? || s.SettleCancel? || s.Extend?) && s.claim == c
    ensures !HeldBy(At(log, j), c) && Affected(At(log, j), s) == {} && Apply(At(log, j), s) == At(log, j)
  {
    hide Legal, Replay, Tokens;
    HeldOrRetired(log, m, k, c);
    RetiredForever(log, k, j, c.leaseToken);
    RetiredClaimIsRejected(At(log, j), Tokens(log[..j]), c, s);
  }

  /** A later claim of the row fences the earlier holder out. */
  lemma LaterClaimFences(log: Log, m: nat, n: nat, j: nat, c: Claim, s: Stmt)
    requires Legal(log) && m < n < j <= |log| && Issued(log, m, c)
    requires log[n].Take? && log[n].id == c.id && (s.Settle? || s.SettleCancel? || s.Extend?) && s.claim == c
    ensures !HeldBy(At(log, j), c) && Affected(At(log, j), s) == {} && Apply(At(log, j), s) == At(log, j)
  {
    hide Legal, Replay;
    Unroll(log, n);
    assert c.leaseToken in Tokens(log[..n]) by {
      assert log[..n][m] == log[m];
    }
    StaleHolderIsFenced(log, m, n + 1, j, c, s);
  }

  /** So does deleting the row, even when the same id is inserted again and its fencing token restarts. */
  lemma DeletionFences(log: Log, m: nat, n: nat, j: nat, c: Claim, s: Stmt)
    requires Legal(log) && m < n <= j <= |log| && Issued(log, m, c)
    requires c.id !in At(log, n) && (s.Settle? || s.SettleCancel? || s.Extend?) && s.claim == c
    ensures !HeldBy(At(log, j), c) && Affected(At(log, j), s) == {} && Apply(At(log, j), s) == At(log, j)
  {
    StaleHolderIsFenced(log, m, n, j, c, s);
  }

  lemma LegalAppend(log: Log, s: Stmt)
    requires Legal(log) && LegalStmt(Replay(log), Tokens(log), s)
    ensures Legal(log + [s]) && Replay(log + [s]) == Apply(Replay(log), s)
    ensures Tokens(log + [s]) == Tokens(log) + (if s.Take? then {s.token} else {})
  {
    assert (log + [s])[..|log|] == log;
    TokensGrow(log, s);
  }

  /** A table of one row, after a statement that updates rows. */
  lemma OneRowAfter(id: TaskId, r: Row, s: Stmt)
    requires !s.Insert? && !s.Prune? && !s.Clear?
    ensures Apply(map[id := r], s) == map[id := RowAfter(id, r, s)]
  {
  }

  /** One more statement on a table of one row. */
  lemma OneRowStep(log: Log, id: TaskId, r: Row, s: Stmt) returns (more: Log)
    requires Legal(log) && Replay(log) == map[id := r]
    requires !s.Insert? && !s.Prune? && !s.Clear? && LegalStmt(map[id := r], Tokens(log), s)
    ensures more == log + [s] && Legal(more) && Replay(more) == map[id := RowAfter(id, r, s)]
    ensures Tokens(more) == Tokens(log) + (if s.Take? then {s.token} else {})
  {
    hide Legal, Replay, Tokens;
    LegalAppend(log, s);
    OneRowAfter(id, r, s);
    more := log + [s];
  }

  /** Insert a row into an empty table and claim it. */
  lemma InsertAndTake(log: Log, row: Row, token: string) returns (more: Log)
    requires Legal(log) && Replay(log) == map[] && token != "" && token !in Tokens(log)
    requires Newborn(row) && row.availableAt <= 0
    ensures more == log + [Insert(row), Take(row.queue, 0, row.id, 0, token, 1)]
    ensures Legal(more) && Replay(more) == map[row.id := Taken(row, token, 1, 0)]
    ensures Tokens(more) == Tokens(log) + {token}
  {
    hide Legal, Replay, Tokens;
    var insert, take := Insert(row), Take(row.queue, 0, row.id, 0, token, 1);
    LegalAppend(log, insert);
    more := OneRowStep(log + [insert], row.id, row, take);
    assert log + [insert] + [take] == log + [insert, take];
  }

  /** Lease-token freshness carries that: there is a run after which id and fencing token repeat. */
  lemma FencingTokensRepeat(row: Row)
    requires Newborn(row) && row.availableAt <= 0
    ensures exists log: Log, m: nat, c: Claim ::
      && Legal(log) && m < |log| && Issued(log, m, c)
      && c.id in Replay(log) && Replay(log)[c.id].status == Processing
      && Replay(log)[c.id].fencing == c.fencing && Replay(log)[c.id].leaseToken != c.leaseToken
  {
    var first := InsertAndTake([], row, "a");
    var cleared, log := ClearAndTake(first, row, "a", "b");
    assert log[1] == first[1];
    assert Issued(log, 1, Claim(row.id, row.payload, "a", 1, 1));
  }

  lemma ClearAndTake(first: Log, row: Row, earlier: string, token: string) returns (cleared: Log, log: Log)
    requires Legal(first) && Replay(first) == map[row.id := Taken(row, earlier, 1, 0)]
    requires Newborn(row) && row.availableAt <= 0 && token != "" && token !in Tokens(first)
    ensures first <= log && Legal(log) && Replay(log) == map[row.id := Taken(row, token, 1, 0)]
  {
    hide Legal, Replay, Tokens;
    LegalAppend(first, Clear(row.queue));
    cleared := first + [Clear(row.queue)];
    assert Replay(cleared) == map[];
    log := InsertAndTake(cleared, row, token);
  }

  // ------------------------------------------------------------ one end per ownership

  /** The statement at position i ends the ownership that token stands for, in one of the accepted ways. */
  predicate Ends(log: Log, i: nat, token: string)
    requires i < |log|
  {
    var t, s := At(log, i), log[i];
    && token != ""
    && (s.Settle? || s.SettleCancel? || s.RecoverCanceled? || s.RecoverExhausted?)
    && exists id :: id in t && t[id].leaseToken == token && Hits(id, t[id], s)
  }

  lemma EndRetiresStep(t: Table, used: set<string>, s: Stmt, id: TaskId)
    requires TableInv(t, used) && LegalStmt(t, used, s) && id in t && Hits(id, t[id], s) && t[id].leaseToken != ""
    requires s.Settle? || s.SettleCancel? || s.RecoverCanceled? || s.RecoverExhausted?
    ensures Retired(Apply(t, s), used, t[id].leaseToken)
  {
    var u := Apply(t, s);
    forall x | x in u ensures u[x].leaseToken != t[id].leaseToken {
      RowKeeps(x, t[x], s);
      assert x != id ==> t[x].leaseToken != t[id].leaseToken;
    }
  }

  lemma EndRetires(log: Log, i: nat, token: string)
    requires Legal(log) && i < |log| && Ends(log, i, token)
    ensures Retired(At(log, i + 1), Tokens(log[..i + 1]), token)
  {
    hide Legal, Replay, Tokens;
    Unroll(log, i);
    InvAt(log, i);
    var t, s := At(log, i), log[i];
    var id :| id in t && t[id].leaseToken == token && Hits(id, t[id], s);
    EndRetiresStep(t, Tokens(log[..i]), s, id);
  }

  /** Each ownership has at most one accepted Complete, Fail, Retry, cancellation or recovery. */
  lemma OwnershipEndsOnce(log: Log, i: nat, j: nat, token: string)
    requires Legal(log) && i < j < |log| && Ends(log, i, token)
    ensures !Ends(log, j, token)
  {
    hide Legal, Replay, Tokens;
    EndRetires(log, i, token);
    RetiredForever(log, i + 1, j, token);
  }

  // ------------------------------------------------------------ ownership intervals never overlap

  predicate Extends(s: Stmt, c: Claim) {
    s.Extend? && s.claim.id == c.id && s.claim.leaseToken == c.leaseToken && s.claim.fencing == c.fencing
  }

  /** The expiry that the claim at m, or the last accepted heartbeat of its holder, set before position n. */
  function LastExpiry(log: Log, m: nat, n: nat, c: Claim): int
    requires m < n <= |log| && log[m].Take?
  {
    if n == m + 1 then log[m].expires
    else if Extends(log[n - 1], c) then log[n - 1].expires
    else LastExpiry(log, m, n - 1, c)
  }

  /** A row that stays with its holder changes only by that holder's heartbeats and by cancel requests. */
  lemma HeldRowStep(r: Row, s: Stmt, c: Claim)
    requires Holds(r, c) && Holds(RowAfter(c.id, r, s), c)
    ensures var q := RowAfter(c.id, r, s);
      && q.leaseExpires == (if Extends(s, c) then Some(s.expires) else r.leaseExpires)
      && q.payload == r.payload && q.attempts == r.attempts
  {
  }

  /** A claim held at n was held at every position since its issue. */
  lemma HeldBefore(log: Log, m: nat, n: nat, c: Claim)
    requires Legal(log) && m < n < |log| && Issued(log, m, c) && HeldBy(At(log, n + 1), c)
    ensures HeldBy(At(log, n), c) && At(log, n + 1)[c.id] == RowAfter(c.id, At(log, n)[c.id], log[n])
  {
    hide Legal, Replay, Tokens;
    HeldOrRetired(log, m, n, c);
    Unroll(log, n);
    if !HeldBy(At(log, n), c) {
      RetiredStep(At(log, n), Tokens(log[..n]), log[n], c.leaseToken);
      assert false;
    }
  }

  lemma {:induction false} HeldUntilLastExpiry(log: Log, m: nat, n: nat, c: Claim)
    requires Legal(log) && m < n <= |log| && Issued(log, m, c) && HeldBy(At(log, n), c)
    ensures At(log, n)[c.id].leaseExpires == Some(LastExpiry(log, m, n, c))
    decreases n - m
  {
    hide Legal, Replay, Tokens;
    if n == m + 1 {
      Unroll(log, m);
    } else {
      HeldBefore(log, m, n - 1, c);
      HeldRowStep(At(log, n - 1)[c.id], log[n - 1], c);
      HeldUntilLastExpiry(log, m, n - 1, c);
    }
  }

  /** How a held claim may be lost: an accepted release by its own holder, expiry by the clock, or a cleared queue. */
  predicate Loses(t: Table, c: Claim, s: Stmt, expiry: int)
    requires c.id in t
  {
    || ((s.Settle? || s.SettleCancel?) && Hits(c.id, t[c.id], s) && s.claim.leaseToken == c.leaseToken)
    || ((s.RecoverCanceled? || s.RecoverExhausted?) && Hits(c.id, t[c.id], s) && s.now >= expiry)
    || (s.Take? && s.id == c.id && s.now >= expiry)
    || (s.Clear? && s.queue == t[c.id].queue)
  }

  /** The same for the row alone. */
  lemma LossOfRow(r: Row, s: Stmt, c: Claim)
    requires RowInv(r) && Holds(r, c)
    requires s.Take? && Hits(c.id, r, s) ==> Claimable(r, s.queue, s.now) && s.token != c.leaseToken
    ensures r.leaseExpires.Some?
    ensures !Holds(RowAfter(c.id, r, s), c) <==>
      || ((s.Settle? || s.SettleCancel?) && Hits(c.id, r, s) && s.claim.leaseToken == c.leaseToken)
      || ((s.RecoverCanceled? || s.RecoverExhausted?) && Hits(c.id, r, s) && s.now >= r.leaseExpires.value)
      || (s.Take? && Hits(c.id, r, s) && s.now >= r.leaseExpires.value)
  {
  }

  lemma HeldRowAfter(t: Table, s: Stmt, c: Claim)
    requires HeldBy(t, c)
    ensures s.Clear? && s.queue == t[c.id].queue ==> !HeldBy(Apply(t, s), c)
    ensures !(s.Clear? && s.queue == t[c.id].queue) ==>
      (HeldBy(Apply(t, s), c) <==> Holds(RowAfter(c.id, t[c.id], s), c))
  {
    hide Updated, FirstN;
    if s.Prune? {
      assert c.id !in Prunable(t, s.before, s.locked);
    }
  }

  /** Exactly the statements named end a held claim. */
  lemma LossStep(t: Table, used: set<string>, s: Stmt, c: Claim)
    requires TableInv(t, used) && LegalStmt(t, used, s) && HeldBy(t, c) && c.leaseToken in used
    ensures t[c.id].leaseExpires.Some?
    ensures !HeldBy(Apply(t, s), c) <==> Loses(t, c, s, t[c.id].leaseExpires.value)
  {
    hide Apply, RowInv, RowAfter, Claimable, TokensUnique, KeysUnique, Removed;
    LossOfRow(t[c.id], s, c);
    HeldRowAfter(t, s, c);
  }

  /** A claim ends at exactly one of those statements, or when its row is claimed again or its queue is cleared. */
  lemma EndsAreLosses(log: Log, m: nat, n: nat, c: Claim)
    requires Legal(log) && m < n < |log| && Issued(log, m, c) && HeldBy(At(log, n), c)
    ensures !HeldBy(At(log, n + 1), c) <==>
      || Ends(log, n, c.leaseToken)
      || (log[n].Take? && log[n].id == c.id)
      || (log[n].Clear? && log[n].queue == At(log, n)[c.id].queue)
  {
    hide Legal, Replay, Tokens;
    Unroll(log, n);
    InvAt(log, n);
    TokenIsUsed(log, m, n, c);
    LossStep(At(log, n), Tokens(log[..n]), log[n], c);
    var t := At(log, n);
    assert forall id :: id in t && t[id].leaseToken == c.leaseToken ==> id == c.id;
  }

  lemma TokenIsUsed(log: Log, m: nat, n: nat, c: Claim)
    requires m < n <= |log| && Issued(log, m, c)
    ensures c.leaseToken in Tokens(log[..n])
  {
    assert log[..n][m] == log[m];
  }

  /** The statement at position e ends the ownership: held before it, lost by it, and not held after it. */
  predicate LostAt(log: Log, m: nat, e: nat, c: Claim)
    requires m < e < |log| && log[m].Take?
  {
    && HeldBy(At(log, e), c) && !HeldBy(At(log, e + 1), c)
    && Loses(At(log, e), c, log[e], LastExpiry(log, m, e, c))
  }

  /** A claim no longer held was lost at some position, and in one of those ways only. */
  lemma {:induction false} OwnershipEndsByReleaseOrExpiry(log: Log, m: nat, k: nat, c: Claim)
    requires Legal(log) && m < k <= |log| && Issued(log, m, c) && !HeldBy(At(log, k), c)
    ensures exists e :: m < e < k && LostAt(log, m, e, c)
    decreases k - m
  {
    hide Legal, Replay, Tokens;
    if k == m + 1 {
      IssueHolds(log, m, c);
    } else if HeldBy(At(log, k - 1), c) {
      var e := k - 1;
      Unroll(log, e);
      InvAt(log, e);
      TokenIsUsed(log, m, e, c);
      LossStep(At(log, e), Tokens(log[..e]), log[e], c);
      HeldUntilLastExpiry(log, m, e, c);
      assert LostAt(log, m, e, c);
    } else {
      OwnershipEndsByReleaseOrExpiry(log, m, k - 1, c);
    }
  }

  /** What losing a claim at a position means, in terms of the tables, the statement and the row's columns. */
  lemma LossesAre(log: Log, m: nat, e: nat, c: Claim)
    requires m < e < |log| && log[m].Take? && LostAt(log, m, e, c)
    ensures HeldBy(At(log, e), c) && !HeldBy(At(log, e + 1), c)
    ensures
      var s, row := log[e], At(log, e)[c.id];
      || (s.Settle? && s.claim.id == c.id && s.claim.leaseToken == c.leaseToken && row.cancelRequested == None)
      || (s.SettleCancel? && s.claim.id == c.id && s.claim.leaseToken == c.leaseToken && row.cancelRequested != None)
      || (s.RecoverCanceled? && s.queue == row.queue && row.cancelRequested != None
          && s.now >= LastExpiry(log, m, e, c))
      || (s.RecoverExhausted? && s.queue == row.queue && row.attempts >= row.maxAttempts
          && s.now >= LastExpiry(log, m, e, c))
      || (s.Take? && s.id == c.id && s.now >= LastExpiry(log, m, e, c))
      || (s.Clear? && s.queue == row.queue)
  {
  }

  /** Two claims of one row: by the second, the first was released, cleared away, or past its last expiry. */
  lemma OwnershipIntervalsDisjoint(log: Log, m: nat, n: nat, c: Claim)
    requires Legal(log) && m < n < |log| && Issued(log, m, c) && log[n].Take? && log[n].id == c.id
    ensures exists e :: m < e <= n && LostAt(log, m, e, c)
    ensures HeldBy(At(log, n), c) ==> log[n].now >= LastExpiry(log, m, n, c)
  {
    hide Legal, Replay;
    Unroll(log, n);
    assert log[..n][m] == log[m];
    OwnershipEndsByReleaseOrExpiry(log, m, n + 1, c);
    if HeldBy(At(log, n), c) {
      HeldUntilLastExpiry(log, m, n, c);
    }
  }
}
