/** Attempt budgets: how often tasks can be claimed, and which rows can be claimed at all. */
module Budgets {
  import opened Tasks
  import opened Runs
  import opened Fencing
  import opened Lifetimes

  /** The claims of one row in [i, k). */
  function Claims(log: Log, id: TaskId, i: nat, k: nat): nat
    requires i <= k <= |log|
  {
    if i == k then 0 else Claims(log, id, i, k - 1) + (if log[k - 1].Take? && log[k - 1].id == id then 1 else 0)
  }

  /** The accepted RetryFailed calls on one row in [i, k). */
  function Revivals(log: Log, id: TaskId, i: nat, k: nat): nat
    requires i <= k <= |log|
  {
    if i == k then 0
    else Revivals(log, id, i, k - 1) +
         (if log[k - 1].RetryFailed? && id in At(log, k - 1) && Hits(id, At(log, k - 1)[id], log[k - 1]) then 1 else 0)
  }

  predicate ClaimedAt(log: Log, n: int, id: TaskId) {
    0 <= n < |log| && log[n].Take? && log[n].id == id
  }

  predicate RevivedAt(log: Log, n: int, id: TaskId) {
    0 <= n < |log| && log[n].RetryFailed? && log[n].id == id && id in At(log, n) && At(log, n)[id].status == Failed
  }

  /** Both are plain numbers of positions in the log. */
  lemma {:induction false} ClaimsAre(log: Log, id: TaskId, i: nat, k: nat)
    requires i <= k <= |log|
    ensures Claims(log, id, i, k) == |set n | i <= n < k && ClaimedAt(log, n, id)|
    decreases k
  {
    hide ClaimedAt, Claims;
    LastClaim(log, id, i, k);
    if i == k {
      assert (set n | i <= n < k && ClaimedAt(log, n, id)) == {};
    } else {
      ClaimsAre(log, id, i, k - 1);
      assert (set n | i <= n < k && ClaimedAt(log, n, id))
          == (set n | i <= n < k - 1 && ClaimedAt(log, n, id)) + (if ClaimedAt(log, k - 1, id) then {k - 1} else {});
    }
  }

  lemma LastClaim(log: Log, id: TaskId, i: nat, k: nat)
    requires i <= k <= |log|
    ensures Claims(log, id, i, k)
         == if i == k then 0 else Claims(log, id, i, k - 1) + (if ClaimedAt(log, k - 1, id) then 1 else 0)
  {
  }

  lemma {:induction false} RevivalsAre(log: Log, id: TaskId, i: nat, k: nat)
    requires i <= k <= |log|
    ensures Revivals(log, id, i, k) == |set n | i <= n < k && RevivedAt(log, n, id)|
    decreases k
  {
    hide RevivedAt, Revivals;
    LastRevival(log, id, i, k);
    if i == k {
      assert (set n | i <= n < k && RevivedAt(log, n, id)) == {};
    } else {
      RevivalsAre(log, id, i, k - 1);
      assert (set n | i <= n < k && RevivedAt(log, n, id))
          == (set n | i <= n < k - 1 && RevivedAt(log, n, id)) + (if RevivedAt(log, k - 1, id) then {k - 1} else {});
    }
  }

  lemma LastRevival(log: Log, id: TaskId, i: nat, k: nat)
    requires i <= k <= |log|
    ensures Revivals(log, id, i, k)
         == if i == k then 0 else Revivals(log, id, i, k - 1) + (if RevivedAt(log, k - 1, id) then 1 else 0)
  {
    hide At;
  }

  /** The fencing token counts the claims of the row. */
  lemma {:induction false} FencingCountsClaims(log: Log, id: TaskId, i: nat, k: nat)
    requires Legal(log) && k <= |log| && Lives(log, id, i, k)
    ensures At(log, k)[id].fencing == At(log, i)[id].fencing + Claims(log, id, i, k)
    decreases k
  {
    hide Legal, Replay, Tokens;
    if i < k {
      assert Lives(log, id, i, k - 1);
      FencingCountsClaims(log, id, i, k - 1);
      LivesStep(log, id, k - 1);
    }
  }

  /** Two claims of one life of a row never share a fencing token. */
  lemma ClaimsOfOneLifeDiffer(log: Log, id: TaskId, m: nat, n: nat)
    requires Legal(log) && m < n < |log| && Lives(log, id, m, n)
    requires log[m].Take? && log[m].id == id && log[n].Take? && log[n].id == id
    ensures log[m].fencing < log[n].fencing
  {
    hide Legal, Replay, Tokens;
    Unroll(log, m);
    Unroll(log, n);
    assert Lives(log, id, m + 1, n);
    FencingCountsClaims(log, id, m + 1, n);
  }

  lemma AttemptsStep(id: TaskId, r: Row, s: Stmt)
    ensures RowAfter(id, r, s).attempts ==
      if s.RetryFailed? && Hits(id, r, s) then 0 else if s.Take? && Hits(id, r, s) then r.attempts + 1 else r.attempts
  {
  }

  lemma AttemptsAfter(log: Log, id: TaskId, i: nat, n: nat)
    requires Legal(log) && i <= n < |log| && id in At(log, n) && id in At(log, n + 1)
    ensures var a, b := At(log, n)[id].attempts, At(log, n + 1)[id].attempts;
      if Revivals(log, id, i, n + 1) > Revivals(log, id, i, n) then b == 0
      else b - a == Claims(log, id, i, n + 1) - Claims(log, id, i, n)
    ensures Revivals(log, id, i, n) <= Revivals(log, id, i, n + 1) <= Revivals(log, id, i, n) + 1
    ensures Revivals(log, id, i, n + 1) > Revivals(log, id, i, n) ==> Claims(log, id, i, n + 1) == Claims(log, id, i, n)
  {
    hide Legal, Replay, Tokens;
    LivesStep(log, id, n);
    AttemptsStep(id, At(log, n)[id], log[n]);
  }

  lemma AttemptsWithoutRevival(log: Log, id: TaskId, i: nat, n: nat)
    requires Legal(log) && i <= n < |log| && Lives(log, id, i, n + 1) && Revivals(log, id, i, n + 1) == 0
    ensures Lives(log, id, i, n) && Revivals(log, id, i, n) == 0
    ensures At(log, n + 1)[id].attempts - At(log, n)[id].attempts
         == Claims(log, id, i, n + 1) - Claims(log, id, i, n)
  {
    hide Legal, Replay, Tokens;
    AttemptsAfter(log, id, i, n);
  }

  /** Between accepted RetryFailed calls, attempts counts the claims. */
  lemma {:induction false} AttemptsCountClaims(log: Log, id: TaskId, i: nat, k: nat)
    requires Legal(log) && k <= |log| && Lives(log, id, i, k) && Revivals(log, id, i, k) == 0
    ensures At(log, k)[id].attempts == At(log, i)[id].attempts + Claims(log, id, i, k)
    decreases k
  {
    hide Legal, Replay, Tokens;
    if i < k {
      AttemptsWithoutRevival(log, id, i, k - 1);
      AttemptsCountClaims(log, id, i, k - 1);
    }
  }

  /** A life of a row sees at most max_attempts claims per budget it was granted. */
  lemma ClaimsWithinBudgets(log: Log, id: TaskId, i: nat, k: nat)
    requires Legal(log) && k <= |log| && Lives(log, id, i, k) && At(log, i)[id].attempts == 0
    ensures Claims(log, id, i, k) <= (Revivals(log, id, i, k) + 1) * At(log, i)[id].maxAttempts
  {
    hide Legal, Replay, Tokens;
    var limit := At(log, i)[id].maxAttempts;
    ClaimsPerBudget(log, id, i, k, limit);
    AttemptsWithinLimit(log, id, i, k);
    GrantedIsProduct(Revivals(log, id, i, k) + 1, limit);
  }

  /** The attempts granted by n budgets. */
  function Granted(n: nat, limit: nat): nat {
    if n == 0 then 0 else Granted(n - 1, limit) + limit
  }

  lemma {:induction false} GrantedIsProduct(n: nat, limit: nat)
    ensures Granted(n, limit) == n * limit
  {
    if n > 0 {
      GrantedIsProduct(n - 1, limit);
      assert n * limit == (n - 1) * limit + limit;
    }
  }

  lemma AttemptsWithinLimit(log: Log, id: TaskId, i: nat, k: nat)
    requires Legal(log) && k <= |log| && Lives(log, id, i, k)
    ensures At(log, k)[id].attempts <= At(log, i)[id].maxAttempts
  {
    hide Legal, Replay, Tokens;
    InvAt(log, k);
    IdentityPersists(log, id, i, k);
  }

  lemma OneStepWithinBudget(log: Log, id: TaskId, i: nat, n: nat, limit: nat)
    requires Legal(log) && i <= n < |log| && Lives(log, id, i, n + 1) && limit == At(log, i)[id].maxAttempts
    ensures Claims(log, id, i, n + 1) - Claims(log, id, i, n)
         <= Granted(Revivals(log, id, i, n + 1), limit) + At(log, n + 1)[id].attempts
            - Granted(Revivals(log, id, i, n), limit) - At(log, n)[id].attempts
  {
    hide Legal, Replay, Tokens;
    assert Lives(log, id, i, n);
    AttemptsWithinLimit(log, id, i, n);
    AttemptsAfter(log, id, i, n);
    BudgetStep(Claims(log, id, i, n), Claims(log, id, i, n + 1), Revivals(log, id, i, n), Revivals(log, id, i, n + 1),
               At(log, n)[id].attempts, At(log, n + 1)[id].attempts, limit);
  }

  /** A revival grants limit claims and takes at most limit attempts; anything else counts claims as attempts. */
  lemma BudgetStep(claims: nat, newClaims: nat, revivals: nat, newRevivals: nat, attempts: nat, newAttempts: nat,
                   limit: nat)
    requires attempts <= limit && revivals <= newRevivals <= revivals + 1
    requires if newRevivals > revivals then newAttempts == 0 && newClaims == claims
      else newAttempts - attempts == newClaims - claims
    ensures newClaims - claims <= Granted(newRevivals, limit) + newAttempts - Granted(revivals, limit) - attempts
  {
  }

  lemma {:induction false} ClaimsPerBudget(log: Log, id: TaskId, i: nat, k: nat, limit: nat)
    requires Legal(log) && k <= |log| && Lives(log, id, i, k) && At(log, i)[id].attempts == 0
    requires limit == At(log, i)[id].maxAttempts
    ensures Claims(log, id, i, k) <= Granted(Revivals(log, id, i, k), limit) + At(log, k)[id].attempts
    decreases k
  {
    hide Legal, Replay, Tokens;
    if i < k {
      assert Lives(log, id, i, k - 1);
      ClaimsPerBudget(log, id, i, k - 1, limit);
      OneStepWithinBudget(log, id, i, k - 1, limit);
    }
  }

  // ------------------------------------------------------------ the whole table drains

  function Left(r: Row): nat {
    if r.attempts < r.maxAttempts then r.maxAttempts - r.attempts else 0
  }

  /** The attempts still granted, summed over the table. */
  ghost function Budget(t: Table): nat {
    if t == map[] then 0
    else
      var id :| id in t;
      Left(t[id]) + Budget(t - {id})
  }

  lemma {:induction false} BudgetWithout(t: Table, id: TaskId)
    requires id in t
    ensures Budget(map[]) == 0
    ensures Budget(t) == Left(t[id]) + Budget(t - {id})
    ensures Left(t[id]) == if t[id].maxAttempts > t[id].attempts then t[id].maxAttempts - t[id].attempts else 0
  {
    var x :| x in t && Budget(t) == Left(t[x]) + Budget(t - {x});
    if x != id {
      BudgetWithout(t - {x}, id);
      BudgetWithout(t - {id}, x);
      assert t - {x} - {id} == t - {id} - {x};
    }
  }

  lemma {:induction false} BudgetShrinks(t: Table, u: Table)
    requires u.Keys <= t.Keys && forall id :: id in u ==> Left(u[id]) <= Left(t[id])
    ensures Budget(u) <= Budget(t)
    decreases |t|
  {
    if t != map[] {
      var id :| id in t;
      BudgetWithout(t, id);
      BudgetShrinks(t - {id}, u - {id});
      if id in u {
        BudgetWithout(u, id);
      } else {
        assert u - {id} == u;
      }
    }
  }

  predicate Refills(s: Stmt) {
    s.Insert? || s.RetryFailed?
  }

  lemma StepSpendsBudget(t: Table, used: set<string>, s: Stmt)
    requires LegalStmt(t, used, s) && !Refills(s)
    ensures Budget(Apply(t, s)) + (if s.Take? then 1 else 0) <= Budget(t)
  {
    var u := Apply(t, s);
    forall id | id in u ensures Left(u[id]) <= Left(t[id]) {
    }
    if s.Take? {
      BudgetWithout(t, s.id);
      BudgetWithout(u, s.id);
      BudgetShrinks(t - {s.id}, u - {s.id});
    } else {
      BudgetShrinks(t, u);
    }
  }

  /** All claims in [i, k), on any row. */
  function AllClaims(log: Log, i: nat, k: nat): nat
    requires i <= k <= |log|
  {
    if i == k then 0 else AllClaims(log, i, k - 1) + (if log[k - 1].Take? then 1 else 0)
  }

  predicate TakeAt(log: Log, n: int) {
    0 <= n < |log| && log[n].Take?
  }

  lemma {:induction false} AllClaimsAre(log: Log, i: nat, k: nat)
    requires i <= k <= |log|
    ensures AllClaims(log, i, k) == |set n | i <= n < k && TakeAt(log, n)|
    decreases k
  {
    if i == k {
      assert (set n | i <= n < k && TakeAt(log, n)) == {};
    } else {
      AllClaimsAre(log, i, k - 1);
      assert (set n | i <= n < k && TakeAt(log, n))
          == (set n | i <= n < k - 1 && TakeAt(log, n)) + (if TakeAt(log, k - 1) then {k - 1} else {});
    }
  }

  /** With no further push or RetryFailed, the claims on the table are bounded by the attempts it still grants. */
  lemma {:induction false} WorkersDrain(log: Log, i: nat, k: nat)
    requires Legal(log) && i <= k <= |log|
    requires forall n :: i <= n < k ==> !Refills(log[n])
    ensures AllClaims(log, i, k) + Budget(At(log, k)) <= Budget(At(log, i))
    decreases k
  {
    hide Legal, Replay, Tokens;
    if i < k {
      WorkersDrain(log, i, k - 1);
      Unroll(log, k - 1);
      StepSpendsBudget(At(log, k - 1), Tokens(log[..k - 1]), log[k - 1]);
    }
  }

  // ------------------------------------------------------------ pending rows with a spent budget

  /** A pending row that no claim can ever pick, although nobody canceled it. */
  predicate Spent(r: Row) {
    r.status == Pending && r.cancelRequested.None? && r.attempts >= r.maxAttempts
  }

  lemma SpentRowStep(id: TaskId, r: Row, s: Stmt)
    requires RowInv(r) && Spent(r) && !Cancels(s, id)
    requires s.Take? && Hits(id, r, s) ==> Claimable(r, s.queue, s.now)
    ensures RowAfter(id, r, s) == r
  {
  }

  predicate Cancels(s: Stmt, id: TaskId) {
    s.Cancel? && s.id == id
  }

  /** No cancel call names the row in [i, k). */
  predicate NotCanceled(log: Log, id: TaskId, i: nat, k: nat)
    requires k <= |log|
  {
    forall n :: i <= n < k ==> !Cancels(log[n], id)
  }

  lemma SpentRowStays(log: Log, id: TaskId, n: nat)
    requires Legal(log) && n < |log| && id in At(log, n) && id in At(log, n + 1) && Spent(At(log, n)[id])
    requires !Cancels(log[n], id)
    ensures At(log, n + 1)[id] == At(log, n)[id]
  {
    hide Legal, Replay, Tokens;
    LivesStep(log, id, n);
    SpentRowStep(id, At(log, n)[id], log[n]);
  }

  /** Such a row stays as it is until it is canceled or deleted: no worker and no RetryFailed can move it. */
  lemma {:induction false} SpentRowIsStuck(log: Log, id: TaskId, i: nat, k: nat)
    requires Legal(log) && k <= |log| && Lives(log, id, i, k) && Spent(At(log, i)[id])
    requires forall n :: i <= n < k ==> !(log[n].Cancel? && log[n].id == id)
    ensures At(log, k)[id] == At(log, i)[id]
    decreases k
  {
    hide Legal, Replay, Tokens;
    assert NotCanceled(log, id, i, k);
    if i < k {
      ShorterLife(log, id, i, k);
      SpentRowIsStuck(log, id, i, k - 1);
      SpentRowStays(log, id, k - 1);
    }
  }

  lemma ShorterLife(log: Log, id: TaskId, i: nat, k: nat)
    requires i < k <= |log| && Lives(log, id, i, k) && NotCanceled(log, id, i, k)
    ensures Lives(log, id, i, k - 1) && NotCanceled(log, id, i, k - 1)
    ensures id in At(log, k - 1) && id in At(log, k) && !Cancels(log[k - 1], id)
  {
  }

  /** There are runs that strand a row: its holder retries although the claim was the last one allowed. */
  lemma LateRetryStrandsRow(row: Row, payload: Payload) returns (log: Log)
    requires Newborn(row) && row.maxAttempts == 1 && row.availableAt <= 0
    ensures Legal(log) && row.id in Replay(log) && Spent(Replay(log)[row.id])
  {
    hide Legal, Replay, Tokens;
    log := ExhaustedRun(row);
    var retry := Settle(Claim(row.id, row.payload, "a", 1, 1), Retry(payload, 1, "job_handler_error"), 1);
    log := OneRowStep(log, row.id, Taken(row, "a", 1, 0), retry);
  }

  predicate NoneSpent(t: Table) {
    forall id :: id in t ==> !Spent(t[id])
  }

  /** The driver's Retry does not compare attempts with the limit: a statement strands a row exactly when it is a
      Retry accepted on the row's last attempt. */
  predicate RetriesLastAttempt(t: Table, s: Stmt) {
    && s.Settle? && s.outcome.Retry? && HeldBy(t, s.claim)
    && t[s.claim.id].cancelRequested.None? && t[s.claim.id].attempts >= t[s.claim.id].maxAttempts
  }

  /** The same for one row. */
  predicate StrandsRow(id: TaskId, r: Row, s: Stmt) {
    s.Settle? && s.outcome.Retry? && Hits(id, r, s) && r.attempts >= r.maxAttempts
  }

  lemma StrandedRowStep(id: TaskId, r: Row, s: Stmt)
    requires RowInv(r) && !Spent(r)
    requires s.Take? && Hits(id, r, s) ==> Claimable(r, s.queue, s.now)
    ensures Spent(RowAfter(id, r, s)) <==> StrandsRow(id, r, s)
  {
  }

  lemma StrandedExactlyByLateRetry(t: Table, used: set<string>, s: Stmt)
    requires TableInv(t, used) && LegalStmt(t, used, s) && NoneSpent(t)
    ensures NoneSpent(Apply(t, s)) <==> !RetriesLastAttempt(t, s)
  {
    var u := Apply(t, s);
    if !s.Insert? {
      forall id | id in u ensures Spent(u[id]) <==> StrandsRow(id, t[id], s) {
        StrandedRowStep(id, t[id], s);
      }
      if RetriesLastAttempt(t, s) {
        assert StrandsRow(s.claim.id, t[s.claim.id], s) && s.claim.id in u;
      }
    }
  }

  /** No table of the run holds a stranded row. */
  predicate NeverStrands(log: Log) {
    forall k :: 0 <= k <= |log| ==> NoneSpent(At(log, k))
  }

  predicate NoLateRetry(log: Log) {
    forall n :: 0 <= n < |log| ==> !RetriesLastAttempt(At(log, n), log[n])
  }

  /** A run strands no row exactly when no Retry of it is accepted on a last attempt. */
  lemma RunsStrandExactlyByLateRetry(log: Log)
    requires Legal(log)
    ensures NeverStrands(log) <==> NoLateRetry(log)
  {
    hide Legal, Replay, Tokens;
    if NeverStrands(log) {
      forall n | 0 <= n < |log| ensures !RetriesLastAttempt(At(log, n), log[n]) {
        assert NoneSpent(At(log, n)) && NoneSpent(At(log, n + 1));
        StrandsAtStep(log, n);
      }
    }
    if NoLateRetry(log) {
      forall k | 0 <= k <= |log| ensures NoneSpent(At(log, k)) {
        NoLateRetryMeansNoneSpent(log, k);
      }
    }
  }

  lemma StrandsAtStep(log: Log, n: nat)
    requires Legal(log) && n < |log| && NoneSpent(At(log, n))
    ensures NoneSpent(At(log, n + 1)) <==> !RetriesLastAttempt(At(log, n), log[n])
  {
    hide Legal, Replay, Tokens;
    Unroll(log, n);
    InvAt(log, n);
    StrandedExactlyByLateRetry(At(log, n), Tokens(log[..n]), log[n]);
  }

  lemma {:induction false} NoLateRetryMeansNoneSpent(log: Log, k: nat)
    requires Legal(log) && k <= |log| && NoLateRetry(log)
    ensures NoneSpent(At(log, k))
    decreases k
  {
    if k > 0 {
      hide Legal, Tokens;
      NoLateRetryMeansNoneSpent(log, k - 1);
      StrandsAtStep(log, k - 1);
    }
  }

  /** The number of retries an encoded payload asks for, as the driver turns it into max_attempts. */
  function AttemptLimit(p: Payload): nat {
    if p.Encoded? && p.envelope.maxRetries > 1 then p.envelope.maxRetries else 1
  }

  /** The worker retries only while the claimed attempt is below the payload's max_retries, which it keeps. */
  predicate WorkerRetries(c: Claim, p: Payload) {
    && c.payload.Encoded? && p.Encoded? && c.attempts < c.payload.envelope.maxRetries
    && p.envelope.maxRetries == c.payload.envelope.maxRetries
  }

  /** Rows come from pushes and every Retry from a worker that reports on a claim it was handed. */
  predicate Disciplined(log: Log) {
    forall n :: 0 <= n < |log| ==>
      && (log[n].Insert? ==> AttemptLimit(log[n].row.payload) == log[n].row.maxAttempts)
      && (log[n].Settle? && log[n].outcome.Retry? ==>
            && WorkerRetries(log[n].claim, log[n].outcome.payload)
            && exists m :: 0 <= m < n && HandedOut(log, m, log[n].claim))
  }

  predicate HandedOut(log: Log, m: nat, c: Claim)
    requires m < |log|
  {
    && Issued(log, m, c) && c.id in At(log, m)
    && c.payload == At(log, m)[c.id].payload && c.attempts == At(log, m)[c.id].attempts + 1
  }

  lemma HandedOutRow(log: Log, m: nat, c: Claim)
    requires Legal(log) && m < |log| && HandedOut(log, m, c) && HeldBy(At(log, m + 1), c)
    ensures At(log, m + 1)[c.id].payload == c.payload && At(log, m + 1)[c.id].attempts == c.attempts
  {
    hide Legal, Replay, Tokens;
    Unroll(log, m);
    assert At(log, m + 1)[c.id] == RowAfter(c.id, At(log, m)[c.id], log[m]);
  }

  lemma HeldRowKeepsPayload(log: Log, m: nat, n: nat, c: Claim)
    requires Legal(log) && m < n < |log| && Issued(log, m, c) && HeldBy(At(log, n + 1), c)
    ensures HeldBy(At(log, n), c)
    ensures At(log, n + 1)[c.id].payload == At(log, n)[c.id].payload
    ensures At(log, n + 1)[c.id].attempts == At(log, n)[c.id].attempts
  {
    hide Legal, Replay, Tokens;
    HeldBefore(log, m, n, c);
    HeldRowStep(At(log, n)[c.id], log[n], c);
  }

  /** While a claim is held, its row keeps the payload and the attempts it was taken with. */
  lemma {:induction false} HeldSinceIssue(log: Log, m: nat, n: nat, c: Claim)
    requires Legal(log) && m < n <= |log| && Issued(log, m, c) && HeldBy(At(log, n), c)
    ensures HeldBy(At(log, m + 1), c)
    ensures At(log, n)[c.id].payload == At(log, m + 1)[c.id].payload
    ensures At(log, n)[c.id].attempts == At(log, m + 1)[c.id].attempts
    decreases n
  {
    hide Legal, Replay, Tokens;
    if n > m + 1 {
      HeldRowKeepsPayload(log, m, n - 1, c);
      HeldSinceIssue(log, m, n - 1, c);
    }
  }

  lemma HeldRowMatchesClaim(log: Log, m: nat, n: nat, c: Claim)
    requires Legal(log) && m < n <= |log| && HandedOut(log, m, c) && HeldBy(At(log, n), c)
    ensures At(log, n)[c.id].payload == c.payload && At(log, n)[c.id].attempts == c.attempts
  {
    hide Legal, Replay, Tokens;
    HeldSinceIssue(log, m, n, c);
    HandedOutRow(log, m, c);
  }

  predicate LimitsKept(t: Table) {
    forall id :: id in t ==> AttemptLimit(t[id].payload) == t[id].maxAttempts
  }

  lemma PayloadStep(id: TaskId, r: Row, s: Stmt)
    ensures var q := RowAfter(id, r, s);
      && q.maxAttempts == r.maxAttempts
      && q.payload == if s.Settle? && s.outcome.Retry? && Hits(id, r, s) then s.outcome.payload else r.payload
  {
  }

  lemma StepKeepsLimits(t: Table, s: Stmt)
    requires LimitsKept(t)
    requires s.Insert? ==> AttemptLimit(s.row.payload) == s.row.maxAttempts
    requires s.Settle? && s.outcome.Retry? && HeldBy(t, s.claim) ==>
      AttemptLimit(s.outcome.payload) == AttemptLimit(t[s.claim.id].payload)
    ensures LimitsKept(Apply(t, s))
  {
    if !s.Insert? {
      forall id | id in Apply(t, s) ensures AttemptLimit(Apply(t, s)[id].payload) == Apply(t, s)[id].maxAttempts {
        PayloadStep(id, t[id], s);
      }
    }
  }

  /** Under that worker discipline no row is ever stranded: every uncanceled pending row is claimable when due. */
  lemma {:induction false} WorkersStrandNoRow(log: Log)
    requires Legal(log) && Disciplined(log)
    ensures NoneSpent(Replay(log)) && LimitsKept(Replay(log))
  {
    if log != [] {
      var n := |log| - 1;
      DisciplinedPrefix(log, n);
      WorkersStrandNoRow(log[..n]);
      Unroll(log, n);
      InvAt(log, n);
      assert log[..n + 1] == log;
      AcceptedRetriesAreEarly(log, n);
      StrandedExactlyByLateRetry(At(log, n), Tokens(log[..n]), log[n]);
      StepKeepsLimits(At(log, n), log[n]);
    }
  }

  lemma AcceptedRetriesAreEarly(log: Log, n: nat)
    requires Legal(log) && n < |log| && Disciplined(log) && LimitsKept(At(log, n))
    ensures !RetriesLastAttempt(At(log, n), log[n])
    ensures log[n].Settle? && log[n].outcome.Retry? && HeldBy(At(log, n), log[n].claim) ==>
      AttemptLimit(log[n].outcome.payload) == AttemptLimit(At(log, n)[log[n].claim.id].payload)
  {
    hide Legal, Replay, Tokens;
    var t, s := At(log, n), log[n];
    if s.Settle? && s.outcome.Retry? && HeldBy(t, s.claim) {
      var m :| 0 <= m < n && HandedOut(log, m, s.claim);
      HeldRowMatchesClaim(log, m, n, s.claim);
    }
  }

  lemma DisciplinedPrefix(log: Log, k: nat)
    requires Disciplined(log) && k <= |log|
    ensures Disciplined(log[..k])
  {
    var p := log[..k];
    forall n | 0 <= n < k && p[n].Settle? && p[n].outcome.Retry?
      ensures WorkerRetries(p[n].claim, p[n].outcome.payload) && exists m :: 0 <= m < n && HandedOut(p, m, p[n].claim)
    {
      assert p[n] == log[n];
      var m :| 0 <= m < n && HandedOut(log, m, log[n].claim);
      assert p[m] == log[m] && p[..m] == log[..m];
      assert HandedOut(p, m, p[n].claim);
    }
    forall n | 0 <= n < k && p[n].Insert? ensures AttemptLimit(p[n].row.payload) == p[n].row.maxAttempts {
      assert p[n] == log[n];
    }
  }
}
