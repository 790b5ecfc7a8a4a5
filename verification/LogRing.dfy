/** The in-memory log buffer: a ring of fixed capacity against the plain list of everything logged. */
module LogRing {
  import opened Common

  /** time is absent for Go's zero time; body stands for level, message, channel and context. */
  datatype Entry = Entry(time: Option<int>, requestID: string, traceID: string, body: string)

  const DEFAULT_MEMORY_LIMIT := 200

  /** Which entries a reader asks for. */
  datatype Query = Everything | ByRequest(requestID: string, traceID: string)

  predicate Wanted(q: Query, e: Entry) {
    && e.time.Some?
    && (q.ByRequest? ==>
          (q.requestID != "" && e.requestID == q.requestID) || (q.traceID != "" && e.traceID == q.traceID))
  }

  /** The wanted entries among numbers low to n - 1 of a list, newest first, at most limit of them. */
  function NewestFirst(log: seq<Entry>, low: nat, n: nat, q: Query, limit: nat): (r: seq<Entry>)
    requires low <= n <= |log|
    ensures |r| <= limit
    decreases n
  {
    if n == low || limit == 0 then []
    else if Wanted(q, log[n - 1]) then [log[n - 1]] + NewestFirst(log, low, n - 1, q, limit - 1)
    else NewestFirst(log, low, n - 1, q, limit)
  }

  /** The number of the oldest entry that a ring of this capacity still holds. */
  function Oldest(log: seq<Entry>, capacity: nat): nat {
    if |log| <= capacity then 0 else |log| - capacity
  }

  function Effective(limit: int): nat {
    if limit < 1 then 20 else limit
  }

  /** The plain form of a reading: the wanted entries among the newest ones that the ring still holds. */
  function Reading(log: seq<Entry>, capacity: nat, q: Query, limit: int): seq<Entry> {
    NewestFirst(log, Oldest(log, capacity), |log|, q, Effective(limit))
  }

  function Reversed(s: seq<Entry>): seq<Entry> {
    if s == [] then [] else [s[|s| - 1]] + Reversed(s[..|s| - 1])
  }

  function Filtered(q: Query, s: seq<Entry>): seq<Entry> {
    if s == [] then [] else (if Wanted(q, s[0]) then [s[0]] else []) + Filtered(q, s[1..])
  }

  function Cut(s: seq<Entry>, n: nat): seq<Entry> {
    if |s| <= n then s else s[..n]
  }

  lemma FilteredStep(log: seq<Entry>, low: nat, n: nat, q: Query)
    requires low < n <= |log|
    ensures Filtered(q, Reversed(log[low..n])) ==
            (if Wanted(q, log[n - 1]) then [log[n - 1]] else []) + Filtered(q, Reversed(log[low..n - 1]))
  {
    var window, rest := log[low..n], Reversed(log[low..n - 1]);
    assert window[|window| - 1] == log[n - 1] && window[..|window| - 1] == log[low..n - 1];
    assert Reversed(window) == [log[n - 1]] + rest && ([log[n - 1]] + rest)[1..] == rest;
  }

  lemma NothingFiltered(q: Query)
    ensures Filtered(q, Reversed([])) == []
  {
  }

  lemma CutCons(e: Entry, s: seq<Entry>, n: nat)
    requires n > 0
    ensures Cut([e] + s, n) == [e] + Cut(s, n - 1)
  {
  }

  lemma {:induction false} NewestFirstIsFiltered(log: seq<Entry>, low: nat, n: nat, q: Query, limit: nat)
    requires low <= n <= |log|
    ensures NewestFirst(log, low, n, q, limit) == Cut(Filtered(q, Reversed(log[low..n])), limit)
    decreases n
  {
    hide Filtered, Reversed, Wanted;
    if n == low {
      assert log[low..n] == [];
      NothingFiltered(q);
    } else if limit > 0 {
      FilteredStep(log, low, n, q);
      var rest := Filtered(q, Reversed(log[low..n - 1]));
      if Wanted(q, log[n - 1]) {
        NewestFirstIsFiltered(log, low, n - 1, q, limit - 1);
        CutCons(log[n - 1], rest, limit);
      } else {
        NewestFirstIsFiltered(log, low, n - 1, q, limit);
        assert [] + rest == rest;
      }
    }
  }

  /** A reading is the entries the ring still holds, newest first, filtered, and cut to the requested size. */
  lemma ReadingIsFilteredTail(log: seq<Entry>, capacity: nat, q: Query, limit: int)
    ensures Reading(log, capacity, q, limit)
         == Cut(Filtered(q, Reversed(log[Oldest(log, capacity)..])), Effective(limit))
  {
    NewestFirstIsFiltered(log, Oldest(log, capacity), |log|, q, Effective(limit));
    assert log[Oldest(log, capacity)..|log|] == log[Oldest(log, capacity)..];
  }

  lemma WantedIs(q: Query, e: Entry)
    ensures Wanted(q, e) <==>
      && e.time != None
      && (q.ByRequest? ==> || (q.requestID != "" && e.requestID == q.requestID)
                           || (q.traceID != "" && e.traceID == q.traceID))
  {
  }

  /** r lists the entries at these falling positions from low to n - 1, all of them wanted. */
  predicate StandsAt(log: seq<Entry>, low: nat, n: nat, q: Query, r: seq<Entry>, at: seq<nat>)
    requires low <= n <= |log|
  {
    && |at| == |r|
    && (forall i :: 0 <= i < |at| ==> low <= at[i] < n && r[i] == log[at[i]] && Wanted(q, log[at[i]]))
    && forall i, j :: 0 <= i < j < |at| ==> at[i] > at[j]
  }

  /** A wanted entry is left out only when there are as many as asked for already, all of them newer. */
  predicate LeftOut(log: seq<Entry>, q: Query, limit: nat, at: seq<nat>, k: nat)
    requires k < |log|
  {
    Wanted(q, log[k]) && k !in at ==> |at| == limit && (at != [] ==> at[|at| - 1] > k)
  }

  lemma OneMorePosition(log: seq<Entry>, low: nat, n: nat, q: Query, r: seq<Entry>, at: seq<nat>)
    requires low < n <= |log| && Wanted(q, log[n - 1]) && StandsAt(log, low, n - 1, q, r, at)
    ensures StandsAt(log, low, n, q, [log[n - 1]] + r, [n - 1] + at)
  {
    hide Wanted;
  }

  lemma {:induction false} PositionsRead(log: seq<Entry>, low: nat, n: nat, q: Query, limit: nat) returns (at: seq<nat>)
    requires low <= n <= |log|
    ensures StandsAt(log, low, n, q, NewestFirst(log, low, n, q, limit), at) && |at| <= limit
    ensures forall k :: low <= k < n ==> LeftOut(log, q, limit, at, k)
    decreases n
  {
    hide Wanted, StandsAt;
    at := [];
    if n == low || limit == 0 {
      assert StandsAt(log, low, n, q, [], []) by { NothingStands(log, low, n, q); }
    } else if Wanted(q, log[n - 1]) {
      var rest := PositionsRead(log, low, n - 1, q, limit - 1);
      OneMorePosition(log, low, n, q, NewestFirst(log, low, n - 1, q, limit - 1), rest);
      at := [n - 1] + rest;
      forall k | low <= k < n ensures LeftOut(log, q, limit, at, k) {
        assert at[0] == n - 1 && at[1..] == rest;
        assert k < n - 1 ==> LeftOut(log, q, limit - 1, rest, k);
      }
    } else {
      at := PositionsRead(log, low, n - 1, q, limit);
      StandsLower(log, low, n, q, NewestFirst(log, low, n - 1, q, limit), at);
    }
  }

  lemma NothingStands(log: seq<Entry>, low: nat, n: nat, q: Query)
    requires low <= n <= |log|
    ensures StandsAt(log, low, n, q, [], [])
  {
  }

  lemma StandsLower(log: seq<Entry>, low: nat, n: nat, q: Query, r: seq<Entry>, at: seq<nat>)
    requires low < n <= |log| && StandsAt(log, low, n - 1, q, r, at)
    ensures StandsAt(log, low, n, q, r, at)
  {
    hide Wanted;
  }

  /**
    Where the entries of a reading stand in the list of everything logged: at falling positions among the newest
    ones, as many as were asked for (20 by default) or else all that carry a time and, if asked for, an identifier.
   */
  lemma ReadingByPositions(log: seq<Entry>, capacity: nat, q: Query, limit: int) returns (at: seq<nat>)
    ensures var r, most := Reading(log, capacity, q, limit), if limit < 1 then 20 else limit;
      && |at| == |r| <= most
      && (forall i :: 0 <= i < |at| ==> |log| - capacity <= at[i] < |log| && r[i] == log[at[i]])
      && (forall i :: 0 <= i < |at| ==>
            var e := log[at[i]];
            && e.time != None
            && (q.ByRequest? ==> || (q.requestID != "" && e.requestID == q.requestID)
                                 || (q.traceID != "" && e.traceID == q.traceID)))
      && (forall i, j :: 0 <= i < j < |at| ==> at[i] > at[j])
      && (forall k :: && 0 <= k < |log| && |log| - capacity <= k && k !in at && log[k].time != None
                      && (q.ByRequest? ==> || (q.requestID != "" && log[k].requestID == q.requestID)
                                           || (q.traceID != "" && log[k].traceID == q.traceID)) ==>
            |at| == most && at[most - 1] > k)
  {
    hide NewestFirst, Wanted;
    var low, most := Oldest(log, capacity), Effective(limit);
    at := PositionsRead(log, low, |log|, q, most);
    forall i | 0 <= i < |at|
      ensures log[at[i]].time != None
      ensures q.ByRequest? ==> || (q.requestID != "" && log[at[i]].requestID == q.requestID)
                               || (q.traceID != "" && log[at[i]].traceID == q.traceID)
    {
      WantedIs(q, log[at[i]]);
    }
    forall k | && low <= k < |log| && k !in at && log[k].time != None
               && (q.ByRequest? ==> || (q.requestID != "" && log[k].requestID == q.requestID)
                                    || (q.traceID != "" && log[k].traceID == q.traceID))
      ensures |at| == most && at[most - 1] > k
    {
      WantedIs(q, log[k]);
      assert LeftOut(log, q, most, at, k);
    }
  }

  /** The slot that entry number n goes to: slots are used in turn, and the last is followed by the first. */
  function Slot(n: nat, limit: nat): (slot: nat)
    requires limit >= 1
    ensures slot < limit
    ensures n < limit ==> slot == n
  {
    if n == 0 then 0
    else if Slot(n - 1, limit) + 1 == limit then 0
    else Slot(n - 1, limit) + 1
  }

  /** Walking i slots back from slot n, around the end of the ring when needed. */
  lemma {:induction false} BackwardSlot(n: nat, limit: nat, i: nat)
    requires limit >= 1 && i < n && i < limit
    ensures Slot(n - 1 - i, limit) ==
            if Slot(n, limit) < 1 + i then Slot(n, limit) + limit - 1 - i else Slot(n, limit) - 1 - i
    decreases i
  {
    if i > 0 {
      BackwardSlot(n, limit, i - 1);
    }
  }

  /** The newest limit entries are in different slots. */
  lemma SlotsDiffer(k: nat, n: nat, limit: nat)
    requires limit >= 1 && k < n < k + limit
    ensures Slot(k, limit) != Slot(n, limit)
  {
    BackwardSlot(n, limit, n - 1 - k);
  }

  lemma WrapsLikeModulo(x: nat, limit: nat)
    requires x < limit
    ensures (x + 1) % limit == if x + 1 == limit then 0 else x + 1
  {
  }

  /** The answer that r and the entries still ahead, below number n, make up. */
  ghost function Expected(log: seq<Entry>, low: nat, n: nat, q: Query, r: seq<Entry>, wanted: nat): seq<Entry>
    requires low <= n <= |log| && |r| <= wanted
  {
    r + NewestFirst(log, low, n, q, wanted - |r|)
  }

  lemma ExpectedStep(log: seq<Entry>, low: nat, n: nat, q: Query, r: seq<Entry>, longer: seq<Entry>, wanted: nat)
    requires low < n <= |log| && |r| < wanted
    requires longer == if Wanted(q, log[n - 1]) then r + [log[n - 1]] else r
    ensures |longer| <= wanted && Expected(log, low, n - 1, q, longer, wanted) == Expected(log, low, n, q, r, wanted)
  {
    if Wanted(q, log[n - 1]) {
      var tail := NewestFirst(log, low, n - 1, q, wanted - |r| - 1);
      assert r + ([log[n - 1]] + tail) == longer + tail;
    }
  }

  lemma ExpectedBounds(log: seq<Entry>, low: nat, n: nat, q: Query, r: seq<Entry>, wanted: nat)
    requires low <= n <= |log| && |r| <= wanted
    ensures Expected(log, low, |log|, q, [], wanted) == NewestFirst(log, low, |log|, q, wanted)
    ensures n == low || |r| == wanted ==> Expected(log, low, n, q, r, wanted) == r
  {
  }

  class MemoryHandler {
    const limit: nat
    const entries: array<Entry>
    var next: nat
    var full: bool
    /** Everything handled so far, oldest first. */
    ghost var log: seq<Entry>

    /** Slot i of the ring holds the newest entry whose number is i modulo the capacity. */
    ghost predicate Valid()
      reads this, entries
    {
      && limit >= 1 && entries.Length == limit && next < limit
      && next == Slot(|log|, limit) && (full <==> |log| >= limit)
      && forall k {:trigger log[k]} :: 0 <= k < |log| && |log| - limit <= k ==> entries[Slot(k, limit)] == log[k]
    }

    constructor (requested: int)
      ensures Valid() && log == [] && fresh(entries)
      ensures limit == if requested < 1 then 200 else requested
    {
      var capacity := if requested < 1 then DEFAULT_MEMORY_LIMIT else requested;
      limit := capacity;
      entries := new Entry[capacity](_ => Entry(None, "", "", ""));
      next, full, log := 0, false, [];
    }

    /** Stores an entry over the oldest one; an absent entry is ignored. */
    method Handle(entry: Option<Entry>)
      requires Valid()
      modifies this, entries
      ensures Valid()
      ensures log == old(log) + (if entry.Some? then [entry.value] else [])
    {
      if entry.None? {
        return;
      }
      ghost var n := |log|;
      entries[next] := entry.value;
      WrapsLikeModulo(next, limit);
      forall k | n + 1 - limit <= k < n && 0 <= k ensures Slot(k, limit) != Slot(n, limit) {
        SlotsDiffer(k, n, limit);
      }
      next := (next + 1) % limit;
      if next == 0 {
        full := true;
      }
      log := log + [entry.value];
    }

    method Recent(count: int) returns (r: seq<Entry>)
      requires Valid()
      ensures r == Reading(log, limit, Everything, count)
    {
      r := RecentFiltered(count, Everything);
    }

    method RecentByRequest(requestID: string, traceID: string, count: int) returns (r: seq<Entry>)
      requires Valid()
      ensures r == Reading(log, limit, ByRequest(TrimSpace(requestID), TrimSpace(traceID)), count)
    {
      r := RecentFiltered(count, ByRequest(TrimSpace(requestID), TrimSpace(traceID)));
    }

    lemma HeldCount()
      requires Valid()
      ensures |log| - Oldest(log, limit) == if full then limit else next
    {
    }

    /** The entry i slots back from the newest, around the end of the ring when needed. */
    method Back(i: nat) returns (e: Entry)
      requires Valid() && i < |log| - Oldest(log, limit)
      ensures e == log[|log| - 1 - i]
    {
      BackwardSlot(|log|, limit, i);
      assert entries[Slot(|log| - 1 - i, limit)] == log[|log| - 1 - i];
      var index := next - 1 - i;
      if index < 0 {
        index := index + limit;
      }
      e := entries[index];
    }

    /** Walks the ring backwards from the newest slot. */
    method RecentFiltered(count: int, q: Query) returns (r: seq<Entry>)
      requires Valid()
      ensures r == Reading(log, limit, q, count)
    {
      var wanted := Effective(count);
      var total := if full then limit else next;
      HeldCount();
      r := [];
      if total == 0 {
        return [];
      }
      ghost var low := Oldest(log, limit);
      var i := 0;
      while i < total && |r| < wanted
        invariant 0 <= i <= total == |log| - low && |r| <= wanted
        invariant Expected(log, low, |log| - i, q, r, wanted) == Expected(log, low, |log|, q, [], wanted)
      {
        var entry := Back(i);
        ghost var shorter := r;
        if Wanted(q, entry) {
          r := r + [entry];
        }
        ExpectedStep(log, low, |log| - i, q, shorter, r, wanted);
        i := i + 1;
      }
      ExpectedBounds(log, low, |log| - i, q, r, wanted);
    }
  }
}
