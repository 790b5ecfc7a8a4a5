/** Starter dependency graphs: cycles, dependency orders, and the least closed selection. */
module Graphs {

  /** Dependencies by starter name; a missing name has none, as in a Go map of slices. */
  type Graph = map<string, seq<string>>

  function DepsOf(g: Graph, name: string): seq<string> {
    if name in g then g[name] else []
  }

  ghost predicate IsPath(g: Graph, p: seq<string>) {
    p != [] && forall i :: 0 <= i < |p| - 1 ==> p[i + 1] in DepsOf(g, p[i])
  }

  ghost predicate IsCycle(g: Graph, p: seq<string>) {
    IsPath(g, p) && |p| >= 2 && p[0] == p[|p| - 1]
  }

  ghost predicate HasCycle(g: Graph) {
    exists p :: IsCycle(g, p)
  }

  predicate NoDuplicates(s: seq<string>) {
    forall i, j :: 0 <= i < j < |s| ==> s[i] != s[j]
  }

  /** A duplicate-free listing in which every starter comes after all its dependencies. */
  ghost predicate DependencyOrder(g: Graph, order: seq<string>) {
    NoDuplicates(order) && forall k, d :: 0 <= k < |order| && d in DepsOf(g, order[k]) ==> d in order[..k]
  }

  /** The position of a starter in an order: the measure that every recursion along dependencies decreases. */
  ghost function Rank(order: seq<string>, name: string): (r: nat)
    requires name in order
    ensures r < |order| && order[r] == name
  {
    if order[0] == name then 0 else 1 + Rank(order[1..], name)
  }

  lemma RankIn(order: seq<string>, k: nat, name: string)
    requires NoDuplicates(order) && k <= |order| && name in order[..k]
    ensures name in order && Rank(order, name) < k
  {
    var r := Rank(order, name);
    var i :| 0 <= i < k && order[i] == name;
    assert i == r;
  }

  lemma DependenciesRankLower(g: Graph, order: seq<string>, name: string, dependency: string)
    requires DependencyOrder(g, order) && name in order && dependency in DepsOf(g, name)
    ensures dependency in order && Rank(order, dependency) < Rank(order, name)
  {
    RankIn(order, Rank(order, name), dependency);
  }

  lemma {:induction false} PathsDescend(g: Graph, order: seq<string>, p: seq<string>)
    requires DependencyOrder(g, order) && IsPath(g, p) && p[0] in order
    ensures p[|p| - 1] in order && Rank(order, p[|p| - 1]) + |p| - 1 <= Rank(order, p[0])
    decreases |p|
  {
    if |p| > 1 {
      DependenciesRankLower(g, order, p[0], p[1]);
      assert IsPath(g, p[1..]);
      PathsDescend(g, order, p[1..]);
    }
  }

  /** A graph with a dependency order over all its starters has no cycle. */
  lemma OrderedGraphsAreAcyclic(g: Graph, order: seq<string>)
    requires DependencyOrder(g, order) && forall n :: n in g ==> n in order
    ensures !HasCycle(g)
  {
    forall p | IsCycle(g, p) ensures false {
      assert p[1] in DepsOf(g, p[0]);
      PathsDescend(g, order, p);
    }
  }

  // ------------------------------------------------------------ adding starters with their dependencies

  /** The dependencies that the resolver follows: those that are optional starters. */
  function OptionalDeps(g: Graph, optional: set<string>, name: string): (deps: seq<string>)
    ensures forall d :: d in deps <==> d in DepsOf(g, name) && d in optional
  {
    Filter(DepsOf(g, name), optional)
  }

  function Filter(names: seq<string>, keep: set<string>): (kept: seq<string>)
    ensures forall d :: d in kept <==> d in names && d in keep
  {
    if names == [] then []
    else if names[0] in keep then [names[0]] + Filter(names[1..], keep)
    else Filter(names[1..], keep)
  }

  lemma OptionalDepsRankLower(g: Graph, optional: set<string>, order: seq<string>, name: string)
    requires DependencyOrder(g, order) && name in order
    ensures forall d :: d in OptionalDeps(g, optional, name) ==> d in order && Rank(order, d) < Rank(order, name)
  {
    forall d | d in OptionalDeps(g, optional, name) ensures d in order && Rank(order, d) < Rank(order, name) {
      DependenciesRankLower(g, order, name, d);
    }
  }

  ghost function Add(g: Graph, optional: set<string>, order: seq<string>, name: string, done: seq<string>): seq<string>
    requires DependencyOrder(g, order) && name in order
    decreases Rank(order, name), 1, 0
  {
    if name in done then done
    else
      OptionalDepsRankLower(g, optional, order, name);
      AddAll(g, optional, order, OptionalDeps(g, optional, name), Rank(order, name), done) + [name]
  }

  /** What visiting names in turn appends to done; every name ranks below bound. */
  ghost function AddAll(g: Graph, optional: set<string>, order: seq<string>, names: seq<string>, bound: nat,
                        done: seq<string>): seq<string>
    requires DependencyOrder(g, order) && forall n :: n in names ==> n in order && Rank(order, n) < bound
    decreases bound, 0, |names|
  {
    if names == [] then done
    else AddAll(g, optional, order, names[1..], bound, Add(g, optional, order, names[0], done))
  }

  /** The activation order of a selection of optional starters. */
  ghost function Resolve(g: Graph, optional: set<string>, order: seq<string>, names: seq<string>): seq<string>
    requires DependencyOrder(g, order) && forall n :: n in names ==> n in order
  {
    AddAll(g, optional, order, names, |order|, [])
  }

  ghost predicate ClosedUnder(g: Graph, optional: set<string>, s: set<string>) {
    forall n, d :: n in s && d in OptionalDeps(g, optional, n) ==> d in s
  }

  ghost predicate ActivationOrder(g: Graph, optional: set<string>, done: seq<string>) {
    NoDuplicates(done) && forall k, d :: 0 <= k < |done| && d in OptionalDeps(g, optional, done[k]) ==> d in done[..k]
  }

  lemma {:induction false} AddIsLeast(g: Graph, optional: set<string>, order: seq<string>, name: string,
                                      done: seq<string>, s: set<string>)
    requires DependencyOrder(g, order) && name in order && ActivationOrder(g, optional, done)
    requires ClosedUnder(g, optional, s) && name in s && forall n :: n in done ==> n in s
    ensures var r := Add(g, optional, order, name, done);
      && ActivationOrder(g, optional, r) && done <= r && name in r
      && (forall n :: n in r ==> n in s)
    decreases Rank(order, name), 1, 0
  {
    if name !in done {
      var deps := OptionalDeps(g, optional, name);
      OptionalDepsRankLower(g, optional, order, name);
      AddAllIsLeast(g, optional, order, deps, Rank(order, name), done, s);
      var before := AddAll(g, optional, order, deps, Rank(order, name), done);
      NameIsNew(g, optional, order, deps, Rank(order, name), done, name);
      AppendActivation(g, optional, before, name);
    }
  }

  lemma AppendActivation(g: Graph, optional: set<string>, done: seq<string>, name: string)
    requires ActivationOrder(g, optional, done) && name !in done
    requires forall d :: d in OptionalDeps(g, optional, name) ==> d in done
    ensures ActivationOrder(g, optional, done + [name])
  {
    var r := done + [name];
    forall k, d | 0 <= k < |r| && d in OptionalDeps(g, optional, r[k]) ensures d in r[..k] {
      if k < |done| {
        assert r[..k] == done[..k];
      } else {
        assert r[..k] == done;
      }
    }
  }

  lemma {:induction false} AddAllIsLeast(g: Graph, optional: set<string>, order: seq<string>, names: seq<string>,
                                         bound: nat, done: seq<string>, s: set<string>)
    requires DependencyOrder(g, order) && forall n :: n in names ==> n in order && Rank(order, n) < bound
    requires ActivationOrder(g, optional, done)
    requires ClosedUnder(g, optional, s) && (forall n :: n in names ==> n in s) && forall n :: n in done ==> n in s
    ensures var r := AddAll(g, optional, order, names, bound, done);
      && ActivationOrder(g, optional, r) && done <= r && (forall n :: n in names ==> n in r)
      && (forall n :: n in r ==> n in s)
    decreases bound, 0, |names|
  {
    if names != [] {
      AddIsLeast(g, optional, order, names[0], done, s);
      var next := Add(g, optional, order, names[0], done);
      AddAllIsLeast(g, optional, order, names[1..], bound, next, s);
      assert forall n :: n in names ==> n == names[0] || n in names[1..];
    }
  }

  /** Visiting starters of lower rank never adds a starter of rank bound or more. */
  lemma {:induction false} NameIsNew(g: Graph, optional: set<string>, order: seq<string>, names: seq<string>,
                                     bound: nat, done: seq<string>, other: string)
    requires DependencyOrder(g, order) && forall n :: n in names ==> n in order && Rank(order, n) < bound
    requires other in order && Rank(order, other) >= bound && other !in done
    ensures other !in AddAll(g, optional, order, names, bound, done)
    decreases bound, 0, |names|
  {
    if names != [] {
      var name := names[0];
      if name !in done {
        var deps := OptionalDeps(g, optional, name);
        OptionalDepsRankLower(g, optional, order, name);
        NameIsNew(g, optional, order, deps, Rank(order, name), done, other);
      }
      NameIsNew(g, optional, order, names[1..], bound, Add(g, optional, order, name, done), other);
    }
  }

  function SetOf(s: seq<string>): set<string> {
    set n | n in s
  }

  /**
    Resolve returns the least selection that contains the names and is closed under optional
    dependencies, without duplicates and with every dependency before its dependents.
   */
  lemma ResolveIsLeastClosure(g: Graph, optional: set<string>, order: seq<string>, names: seq<string>)
    requires DependencyOrder(g, order) && forall n :: n in names ==> n in order
    ensures var r := Resolve(g, optional, order, names);
      && ActivationOrder(g, optional, r) && SetOf(names) <= SetOf(r) && ClosedUnder(g, optional, SetOf(r))
      && (forall s :: ClosedUnder(g, optional, s) && SetOf(names) <= s ==> SetOf(r) <= s)
  {
    var r := Resolve(g, optional, order, names);
    var everything := SetOf(order);
    forall n, d | n in everything && d in OptionalDeps(g, optional, n) ensures d in everything {
      DependenciesRankLower(g, order, n, d);
    }
    AddAllIsLeast(g, optional, order, names, |order|, [], everything);
    forall s | ClosedUnder(g, optional, s) && SetOf(names) <= s ensures SetOf(r) <= s {
      AddAllIsLeast(g, optional, order, names, |order|, [], s);
    }
    forall n, d | n in SetOf(r) && d in OptionalDeps(g, optional, n) ensures d in SetOf(r) {
      var k :| 0 <= k < |r| && r[k] == n;
      assert d in r[..k];
    }
  }

  /** One step of a loop over a dependency list, which skips what is not optional. */
  lemma AddAllStep(g: Graph, optional: set<string>, order: seq<string>, deps: seq<string>, i: nat, bound: nat,
                   done: seq<string>)
    requires DependencyOrder(g, order) && i < |deps|
    requires forall d :: d in Filter(deps[i..], optional) ==> d in order && Rank(order, d) < bound
    ensures forall d :: d in Filter(deps[i + 1..], optional) ==> d in order && Rank(order, d) < bound
    ensures deps[i] in optional ==> deps[i] in order && Rank(order, deps[i]) < bound
    ensures AddAll(g, optional, order, Filter(deps[i..], optional), bound, done)
         == AddAll(g, optional, order, Filter(deps[i + 1..], optional), bound,
                   if deps[i] in optional then Add(g, optional, order, deps[i], done) else done)
  {
    hide DependencyOrder, Rank, Add;
    assert deps[i..][0] == deps[i] && deps[i..][1..] == deps[i + 1..];
  }

  /** The same loop before its first and after its last step. */
  lemma AddAllEnds(g: Graph, optional: set<string>, order: seq<string>, deps: seq<string>, bound: nat,
                   done: seq<string>)
    requires DependencyOrder(g, order)
    ensures deps[0..] == deps && Filter(deps[|deps|..], optional) == []
    ensures AddAll(g, optional, order, Filter(deps[|deps|..], optional), bound, done) == done
  {
  }

  lemma {:induction false} AddAllInTurn(g: Graph, optional: set<string>, order: seq<string>, a: seq<string>,
                                        b: seq<string>, bound: nat, done: seq<string>)
    requires DependencyOrder(g, order) && forall n :: n in a + b ==> n in order && Rank(order, n) < bound
    ensures forall n :: n in a || n in b ==> n in a + b
    ensures AddAll(g, optional, order, a + b, bound, done)
         == AddAll(g, optional, order, b, bound, AddAll(g, optional, order, a, bound, done))
    decreases |a|
  {
    forall n | n in a || n in b ensures n in a + b {
    }
    if a == [] {
      assert a + b == b;
    } else {
      assert (a + b)[1..] == a[1..] + b;
      AddAllInTurn(g, optional, order, a[1..], b, bound, Add(g, optional, order, a[0], done));
    }
  }

  lemma {:induction false} BoundIsFree(g: Graph, optional: set<string>, order: seq<string>, names: seq<string>,
                                       bound: nat, done: seq<string>)
    requires DependencyOrder(g, order) && bound <= |order|
    requires forall n :: n in names ==> n in order && Rank(order, n) < bound
    ensures AddAll(g, optional, order, names, bound, done) == AddAll(g, optional, order, names, |order|, done)
    decreases |names|
  {
    if names != [] {
      BoundIsFree(g, optional, order, names[1..], bound, Add(g, optional, order, names[0], done));
    }
  }

  /**
    Listing one more starter keeps the order so far; if it is new, its optional dependencies follow as if they had
    been listed before it, in their order, and then the starter itself.
   */
  lemma ResolveGrows(g: Graph, optional: set<string>, order: seq<string>, names: seq<string>, name: string)
    requires DependencyOrder(g, order) && name in order && forall n :: n in names ==> n in order
    ensures forall d :: d in OptionalDeps(g, optional, name) ==> d in order
    ensures Resolve(g, optional, order, []) == []
    ensures var r := Resolve(g, optional, order, names);
      Resolve(g, optional, order, names + [name])
      == if name in r then r else Resolve(g, optional, order, names + OptionalDeps(g, optional, name)) + [name]
  {
    var r, deps := Resolve(g, optional, order, names), OptionalDeps(g, optional, name);
    OptionalDepsRankLower(g, optional, order, name);
    AddAllInTurn(g, optional, order, names, [name], |order|, []);
    assert AddAll(g, optional, order, [name], |order|, r) == Add(g, optional, order, name, r);
    if name !in r {
      BoundIsFree(g, optional, order, deps, Rank(order, name), r);
      AddAllInTurn(g, optional, order, names, deps, |order|, []);
    }
  }

  /** The optional dependencies are those of the list, in its order. */
  lemma {:induction false} FilterIs(names: seq<string>, keep: set<string>, name: string)
    ensures Filter([], keep) == []
    ensures Filter(names + [name], keep) == Filter(names, keep) + (if name in keep then [name] else [])
  {
    if names == [] {
      assert [] + [name] == [name] && [name][1..] == [];
    } else {
      assert (names + [name])[1..] == names[1..] + [name];
      FilterIs(names[1..], keep, name);
    }
  }

  lemma {:induction false} AddAllKnown(g: Graph, optional: set<string>, order: seq<string>, names: seq<string>,
                                       bound: nat, done: seq<string>)
    requires DependencyOrder(g, order) && forall n :: n in names ==> n in order && Rank(order, n) < bound
    requires forall n :: n in names ==> n in done
    ensures AddAll(g, optional, order, names, bound, done) == done
    decreases |names|
  {
    if names != [] {
      AddAllKnown(g, optional, order, names[1..], bound, done);
    }
  }

  lemma {:induction false} ActivationOrderIsFixed(g: Graph, optional: set<string>, order: seq<string>,
                                                  names: seq<string>, k: nat)
    requires DependencyOrder(g, order) && (forall n :: n in names ==> n in order)
    requires ActivationOrder(g, optional, names) && k <= |names|
    ensures AddAll(g, optional, order, names[k..], |order|, names[..k]) == names
    decreases |names| - k
  {
    if k == |names| {
      assert names[..k] == names;
    } else {
      var name, done := names[k], names[..k];
      assert name !in done;
      var deps := OptionalDeps(g, optional, name);
      OptionalDepsRankLower(g, optional, order, name);
      AddAllKnown(g, optional, order, deps, Rank(order, name), done);
      assert Add(g, optional, order, name, done) == names[..k + 1];
      assert names[k..][1..] == names[k + 1..];
      ActivationOrderIsFixed(g, optional, order, names, k + 1);
    }
  }

  /** Resolving a resolved selection changes nothing. */
  lemma ResolveIsIdempotent(g: Graph, optional: set<string>, order: seq<string>, names: seq<string>)
    requires DependencyOrder(g, order) && forall n :: n in names ==> n in order
    ensures var r := Resolve(g, optional, order, names);
      && (forall n :: n in r ==> n in order)
      && Resolve(g, optional, order, r) == r
  {
    ResolveIsLeastClosure(g, optional, order, names);
    var r := Resolve(g, optional, order, names);
    var everything := SetOf(order);
    forall n, d | n in everything && d in OptionalDeps(g, optional, n) ensures d in everything {
      DependenciesRankLower(g, order, n, d);
    }
    assert SetOf(r) <= everything;
    assert forall n :: n in r ==> n in SetOf(r);
    ActivationOrderIsFixed(g, optional, order, r, 0);
    assert r[0..] == r && r[..0] == [];
  }

  /** A selection needs no completion exactly when it is already closed. */
  lemma ClosedSelectionsGainNothing(g: Graph, optional: set<string>, order: seq<string>, names: seq<string>)
    requires DependencyOrder(g, order) && forall n :: n in names ==> n in order
    ensures SetOf(Resolve(g, optional, order, names)) == SetOf(names) <==> ClosedUnder(g, optional, SetOf(names))
  {
    ResolveIsLeastClosure(g, optional, order, names);
  }

  lemma {:induction false} AddAllIgnoresOrder(g: Graph, optional: set<string>, o1: seq<string>, o2: seq<string>,
                                              names: seq<string>, b1: nat, b2: nat, done: seq<string>)
    requires DependencyOrder(g, o1) && DependencyOrder(g, o2)
    requires forall n :: n in names ==> n in o1 && Rank(o1, n) < b1 && n in o2 && Rank(o2, n) < b2
    ensures AddAll(g, optional, o1, names, b1, done) == AddAll(g, optional, o2, names, b2, done)
    decreases b1, 0, |names|
  {
    if names != [] {
      var name := names[0];
      if name !in done {
        OptionalDepsRankLower(g, optional, o1, name);
        OptionalDepsRankLower(g, optional, o2, name);
        AddAllIgnoresOrder(g, optional, o1, o2, OptionalDeps(g, optional, name), Rank(o1, name), Rank(o2, name), done);
      }
      AddAllIgnoresOrder(g, optional, o1, o2, names[1..], b1, b2, Add(g, optional, o1, name, done));
    }
  }

  /** The activation order is deterministic: it does not depend on the order in which the cycle check ran. */
  lemma ResolveIsDeterministic(g: Graph, optional: set<string>, o1: seq<string>, o2: seq<string>, names: seq<string>)
    requires DependencyOrder(g, o1) && DependencyOrder(g, o2)
    requires forall n :: n in names ==> n in o1 && n in o2
    ensures Resolve(g, optional, o1, names) == Resolve(g, optional, o2, names)
  {
    AddAllIgnoresOrder(g, optional, o1, o2, names, |o1|, |o2|, []);
  }
}
