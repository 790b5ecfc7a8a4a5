/** The starter catalog: validation of the dependency graph, and the two selection algorithms. */
module Starter {
  import opened Common
  import opened Graphs

  datatype Manifest = NilManifest | Manifest(name: string, dependencies: seq<string>, assets: string)

  datatype CatalogError =
    | InvalidManifest | DuplicateManifest | InvalidDependency | DependencyCycle
    | NonCanonicalName | DuplicateName | DefaultListed | UnknownName | MissingDependency

  /** The pattern ^[a-z][a-z0-9_-]*$. */
  predicate Canonical(name: string) {
    && name != [] && 'a' <= name[0] <= 'z'
    && forall i :: 0 <= i < |name| ==>
         'a' <= name[i] <= 'z' || '0' <= name[i] <= '9' || name[i] == '_' || name[i] == '-'
  }

  /** A letter a to z, and then letters a to z, digits, underscores and hyphens only, by their ASCII codes. */
  lemma CanonicalIsThePattern(name: string)
    ensures Canonical(name) <==>
      exists head, tail :: name == [head] + tail && 97 <= head as int <= 122
        && forall c :: c in tail ==> 97 <= c as int <= 122 || 48 <= c as int <= 57 || c as int in {45, 95}
  {
    if Canonical(name) {
      assert name == [name[0]] + name[1..];
    }
    forall head: char, tail: string | name == [head] + tail && 97 <= head as int <= 122
      && forall c :: c in tail ==> 97 <= c as int <= 122 || 48 <= c as int <= 57 || c as int in {45, 95}
      ensures Canonical(name)
    {
      forall i | 0 <= i < |name|
        ensures 'a' <= name[i] <= 'z' || '0' <= name[i] <= '9' || name[i] == '_' || name[i] == '-'
      {
        if i > 0 {
          assert name[i] == tail[i - 1] && tail[i - 1] in tail;
        }
      }
    }
  }

  /** The name test of the catalog; the pattern already implies its first two conditions. */
  predicate NameOk(name: string) {
    name != "" && name == TrimSpace(name) && Canonical(name)
  }

  lemma CanonicalNamesAreOk(name: string)
    ensures NameOk(name) <==> Canonical(name)
  {
    if Canonical(name) {
      assert !IsSpace(name[0]) && !IsSpace(name[|name| - 1]);
      TrimSpaceFixpoint(name);
    }
  }

  method CheckName(name: string) returns (ok: bool)
    ensures ok <==> Canonical(name)
  {
    CanonicalNamesAreOk(name);
    ok := name != "" && name == TrimSpace(name) && Canonical(name);
  }

  type Index = map<string, Manifest>

  predicate IndexOk(all: Index) {
    forall n :: n in all ==> all[n].Manifest? && all[n].name == n && Canonical(n)
  }

  function ByName(ms: seq<Manifest>): (all: Index)
    ensures forall n :: n in all ==> all[n] in ms && all[n].Manifest? && all[n].name == n
    ensures forall m :: m in ms && m.Manifest? ==> m.name in all
  {
    if ms == [] then map[]
    else
      var rest, m := ByName(ms[..|ms| - 1]), ms[|ms| - 1];
      if m.NilManifest? then rest else rest[m.name := m]
  }

  /** The graph that the manifests declare. */
  function Declared(all: Index): Graph {
    map n | n in all && all[n].Manifest? :: all[n].dependencies
  }

  predicate DependencyOk(all: Index, defaultNames: set<string>, name: string, dependency: string) {
    && Canonical(dependency) && dependency != name && dependency in all
    && (name in defaultNames ==> dependency in defaultNames)
  }

  predicate ListOk(all: Index, defaultNames: set<string>, name: string, deps: seq<string>) {
    NoDuplicates(deps) && forall d :: d in deps ==> DependencyOk(all, defaultNames, name, d)
  }

  lemma ListOkStep(all: Index, defaultNames: set<string>, name: string, deps: seq<string>, i: nat)
    requires i < |deps| && ListOk(all, defaultNames, name, deps[..i])
    ensures ListOk(all, defaultNames, name, deps[..i + 1]) <==>
            DependencyOk(all, defaultNames, name, deps[i]) && deps[i] !in deps[..i]
    ensures !ListOk(all, defaultNames, name, deps[..i + 1]) ==> !ListOk(all, defaultNames, name, deps)
    ensures SetOf(deps[..i + 1]) == SetOf(deps[..i]) + {deps[i]}
  {
    var longer := deps[..i + 1];
    assert longer == deps[..i] + [deps[i]];
    if ListOk(all, defaultNames, name, longer) {
      assert longer[i] in longer;
    }
  }

  /** The conditions on one manifest's dependency list. */
  predicate DependenciesOk(all: Index, defaultNames: set<string>, name: string)
    requires name in all && all[name].Manifest?
  {
    ListOk(all, defaultNames, name, all[name].dependencies)
  }

  predicate AllDependenciesOk(all: Index, defaultNames: set<string>)
    requires IndexOk(all)
  {
    forall n :: n in all ==> DependenciesOk(all, defaultNames, n)
  }

  lemma SameDependenciesSameCycles(g: Graph, h: Graph)
    requires forall n :: DepsOf(g, n) == DepsOf(h, n)
    ensures HasCycle(g) <==> HasCycle(h)
  {
    forall p | IsCycle(g, p) || IsCycle(h, p) ensures IsCycle(g, p) && IsCycle(h, p) {
      assert forall i :: 0 <= i < |p| - 1 ==> DepsOf(g, p[i]) == DepsOf(h, p[i]);
    }
  }

  lemma DuplicateFreeFits(s: seq<string>, nodes: set<string>)
    requires NoDuplicates(s) && SetOf(s) <= nodes
    ensures |s| <= |nodes|
    decreases |s|
  {
    if s != [] {
      var n := |s| - 1;
      assert s[n] in SetOf(s);
      forall x | x in SetOf(s[..n]) ensures x in nodes - {s[n]} {
        assert x in SetOf(s);
      }
      DuplicateFreeFits(s[..n], nodes - {s[n]});
    }
  }

  /**
    The colours of a depth-first search: 1 on the current path (stack), 2 once finished. The grey
    starters are a dependency path; the black ones are listed after all their dependencies.
   */
  ghost predicate Coloured(g: Graph, nodes: set<string>, state: map<string, nat>, finished: seq<string>,
                           stack: seq<string>)
  {
    && NoDuplicates(stack) && (stack == [] || IsPath(g, stack)) && SetOf(stack) <= nodes
    && DependencyOrder(g, finished) && SetOf(finished) <= nodes
    && (forall x :: (x in state && state[x] == 1) <==> x in stack)
    && (forall x :: (x in state && state[x] == 2) <==> x in finished)
  }

  lemma ColourOf(g: Graph, nodes: set<string>, state: map<string, nat>, finished: seq<string>, stack: seq<string>,
                 name: string)
    requires Coloured(g, nodes, state, finished, stack)
    ensures (name in state && state[name] == 1) <==> name in stack
    ensures (name in state && state[name] == 2) <==> name in finished
    ensures stack != [] ==> IsPath(g, stack)
  {
  }

  lemma EnterNode(g: Graph, nodes: set<string>, state: map<string, nat>, finished: seq<string>, stack: seq<string>,
                  name: string)
    requires Coloured(g, nodes, state, finished, stack) && name in nodes && name !in stack && name !in finished
    requires stack != [] ==> name in DepsOf(g, stack[|stack| - 1])
    ensures Coloured(g, nodes, state[name := 1], finished, stack + [name]) && |stack| < |nodes|
  {
    var path := stack + [name];
    forall x | x in SetOf(path) ensures x in nodes {
      assert x in stack ==> x in SetOf(stack);
    }
    assert forall x :: x in path <==> x in stack || x == name;
    DuplicateFreeFits(path, nodes);
  }

  lemma LeaveNode(g: Graph, nodes: set<string>, state: map<string, nat>, finished: seq<string>, stack: seq<string>,
                  name: string)
    requires Coloured(g, nodes, state, finished, stack + [name])
    requires forall d :: d in DepsOf(g, name) ==> d in finished
    ensures Coloured(g, nodes, state[name := 2], finished + [name], stack)
  {
    assert name in stack + [name] && name !in finished;
    PathShrinks(g, stack, name);
    OrderGrows(g, finished, name);
    hide IsPath, DependencyOrder, NoDuplicates;
    assert forall x :: x in stack + [name] <==> x in stack || x == name;
    assert name in SetOf(stack + [name]);
  }

  lemma PathShrinks(g: Graph, stack: seq<string>, name: string)
    requires NoDuplicates(stack + [name]) && IsPath(g, stack + [name])
    ensures NoDuplicates(stack) && name !in stack && (stack == [] || IsPath(g, stack))
    ensures SetOf(stack + [name]) == SetOf(stack) + {name}
  {
    var path := stack + [name];
    assert path[|stack|] == name && forall i :: 0 <= i < |stack| ==> path[i] == stack[i];
    assert name in path;
  }

  lemma OrderGrows(g: Graph, finished: seq<string>, name: string)
    requires DependencyOrder(g, finished) && name !in finished && forall d :: d in DepsOf(g, name) ==> d in finished
    ensures DependencyOrder(g, finished + [name]) && SetOf(finished + [name]) == SetOf(finished) + {name}
  {
    var done := finished + [name];
    forall k, d | 0 <= k < |done| && d in DepsOf(g, done[k]) ensures d in done[..k] {
      assert done[..k] == if k < |finished| then finished[..k] else finished;
    }
    assert name in done;
  }

  lemma GreyMeansCycle(g: Graph, stack: seq<string>, name: string)
    requires stack != [] && IsPath(g, stack) && name in stack && name in DepsOf(g, stack[|stack| - 1])
    ensures HasCycle(g)
  {
    var j :| 0 <= j < |stack| && stack[j] == name;
    assert IsCycle(g, stack[j..] + [name]);
  }

  /** The depth-first search of validateDependencies. */
  class Visitor {
    const dependencies: Graph
    ghost const nodes: set<string>
    var state: map<string, nat>
    ghost var finished: seq<string>

    ghost predicate Inv(stack: seq<string>)
      reads this
    {
      && Coloured(dependencies, nodes, state, finished, stack)
      && forall n, d :: n in nodes && d in DepsOf(dependencies, n) ==> d in nodes
    }

    constructor (dependencies: Graph, ghost nodes: set<string>)
      requires forall n, d :: n in nodes && d in DepsOf(dependencies, n) ==> d in nodes
      ensures this.dependencies == dependencies && this.nodes == nodes && finished == [] && Inv([])
    {
      this.dependencies := dependencies;
      this.nodes := nodes;
      state := map[];
      finished := [];
    }

    method Visit(name: string, ghost stack: seq<string>) returns (cyclic: bool)
      requires Inv(stack) && name in nodes
      requires stack != [] ==> name in DepsOf(dependencies, stack[|stack| - 1])
      modifies this
      ensures cyclic ==> HasCycle(dependencies)
      ensures !cyclic ==> Inv(stack) && name in finished && forall x :: x in old(finished) ==> x in finished
      decreases |nodes| - |stack|
    {
      hide Coloured, IsPath, HasCycle;
      ColourOf(dependencies, nodes, state, finished, stack, name);
      if name in state && state[name] == 1 {
        GreyMeansCycle(dependencies, stack, name);
        return true;
      }
      if name in state && state[name] == 2 {
        return false;
      }
      EnterNode(dependencies, nodes, state, finished, stack, name);
      state := state[name := 1];
      ghost var path := stack + [name];
      var deps := DepsOf(dependencies, name);
      for i := 0 to |deps|
        invariant Inv(path) && forall x :: x in old(finished) ==> x in finished
        invariant forall j :: 0 <= j < i ==> deps[j] in finished
      {
        cyclic := Visit(deps[i], path);
        if cyclic {
          return true;
        }
      }
      LeaveNode(dependencies, nodes, state, finished, stack, name);
      state := state[name := 2];
      finished := finished + [name];
      return false;
    }

    /** Visits every starter, in any order, and reports a cycle exactly when the graph has one. */
    method VisitAll(names: set<string>) returns (cyclic: bool)
      requires Inv([]) && finished == [] && names == nodes && (forall n :: n in dependencies ==> n in nodes)
      modifies this
      ensures cyclic <==> HasCycle(dependencies)
      ensures !cyclic ==> DependencyOrder(dependencies, finished) && SetOf(finished) == nodes
    {
      var todo := names;
      while todo != {}
        invariant Inv([]) && todo <= names
        invariant forall n :: n in names - todo ==> n in finished
      {
        var name :| name in todo;
        cyclic := Visit(name, []);
        if cyclic {
          return true;
        }
        todo := todo - {name};
      }
      OrderedGraphsAreAcyclic(dependencies, finished);
      return false;
    }
  }

  // ------------------------------------------------------------ names

  predicate ManifestOk(m: Manifest) {
    m.Manifest? && Canonical(m.name)
  }

  /** Manifests that can be registered one after another when the taken names are already in use. */
  predicate Registrable(ms: seq<Manifest>, taken: set<string>) {
    && (forall m :: m in ms ==> ManifestOk(m) && m.name !in taken)
    && forall i, j :: 0 <= i < j < |ms| && ms[i].Manifest? && ms[j].Manifest? ==> ms[i].name != ms[j].name
  }

  /** The manifest at i is the first that cannot be registered, and err says why. */
  predicate OffendsAt(ms: seq<Manifest>, taken: set<string>, i: nat, err: Option<CatalogError>)
    requires i < |ms|
  {
    && Registrable(ms[..i], taken) && !Registrable(ms[..i + 1], taken)
    && err == Some(if ManifestOk(ms[i]) then DuplicateManifest else InvalidManifest)
  }

  lemma ByNameKeys(ms: seq<Manifest>, n: string)
    ensures n in ByName(ms) <==> exists i :: 0 <= i < |ms| && Called(ms[i], n)
  {
    if n in ByName(ms) {
      assert ByName(ms)[n] in ms;
    }
  }

  /** Both lists can be registered exactly when all their manifests are good and all names are different. */
  lemma RegistrableTogether(defaults: seq<Manifest>, optional: seq<Manifest>)
    ensures Registrable(defaults, {}) && Registrable(optional, ByName(defaults).Keys) <==>
      var ms := defaults + optional;
      && (forall i :: 0 <= i < |ms| ==> ms[i].Manifest? && Canonical(ms[i].name))
      && forall i, j :: 0 <= i < j < |ms| && ms[i].Manifest? && ms[j].Manifest? ==> ms[i].name != ms[j].name
  {
    hide Canonical, ByName;
    var ms := defaults + optional;
    forall n {
      ByNameKeys(defaults, n);
    }
    assert forall i :: 0 <= i < |defaults| ==> ms[i] == defaults[i] && ms[i] in defaults;
    assert forall i :: 0 <= i < |optional| ==> ms[|defaults| + i] == optional[i] && optional[i] in optional;
  }

  lemma ByNameOf(ms: seq<Manifest>, taken: set<string>, i: nat)
    requires Registrable(ms, taken) && i < |ms|
    ensures ms[i].Manifest? && ms[i].name in ByName(ms) && ByName(ms)[ms[i].name] == ms[i]
  {
    assert ms[i] in ms;
    var m := ByName(ms)[ms[i].name];
    var k :| 0 <= k < |ms| && ms[k] == m;
    assert m.Manifest? && m.name == ms[i].name;
  }

  lemma IndexesDisjoint(ms: seq<Manifest>, taken: set<string>)
    requires Registrable(ms, taken)
    ensures ByName(ms).Keys !! taken
  {
    forall n | n in ByName(ms) ensures n !in taken {
      assert ByName(ms)[n] in ms;
    }
  }

  predicate Called(m: Manifest, n: string) {
    m.Manifest? && m.name == n
  }

  /** A registered manifest stands in the joint index under its name. */
  lemma InJointIndex(defaults: seq<Manifest>, optional: seq<Manifest>, i: nat)
    requires Registrable(defaults, {}) && Registrable(optional, ByName(defaults).Keys) && i < |defaults + optional|
    ensures var m, all := (defaults + optional)[i], ByName(defaults) + ByName(optional);
      m.Manifest? && m.name in all && all[m.name] == m && (m.name in ByName(defaults) <==> i < |defaults|)
  {
    hide ByName, Canonical;
    if i < |defaults| {
      ByNameOf(defaults, {}, i);
      IndexesDisjoint(optional, ByName(defaults).Keys);
    } else {
      ByNameOf(optional, ByName(defaults).Keys, i - |defaults|);
      assert optional[i - |defaults|] in optional;
    }
  }

  lemma KnownNames(defaults: seq<Manifest>, optional: seq<Manifest>, n: string)
    ensures n in ByName(defaults) + ByName(optional) <==>
      exists k :: 0 <= k < |defaults + optional| && Called((defaults + optional)[k], n)
    ensures n in ByName(defaults) <==> exists k :: 0 <= k < |defaults| && Called((defaults + optional)[k], n)
  {
    hide ByName;
    var ms := defaults + optional;
    ByNameKeys(defaults, n);
    ByNameKeys(optional, n);
    if k :| 0 <= k < |optional| && Called(optional[k], n) {
      assert Called(ms[|defaults| + k], n);
    }
    if k :| 0 <= k < |defaults| && Called(defaults[k], n) {
      assert Called(ms[k], n);
    }
  }

  /** A dependency of the i-th manifest, at j in its list: new in it, not itself, known, and a default of a default. */
  predicate DependencyFits(defaults: seq<Manifest>, optional: seq<Manifest>, i: nat, j: nat)
    requires i < |defaults + optional| && (defaults + optional)[i].Manifest?
    requires j < |(defaults + optional)[i].dependencies|
  {
    var ms := defaults + optional;
    var d := ms[i].dependencies[j];
    && d != ms[i].name && d !in ms[i].dependencies[..j]
    && (exists k :: 0 <= k < |ms| && Called(ms[k], d))
    && (i < |defaults| ==> exists k :: 0 <= k < |defaults| && Called(ms[k], d))
  }

  lemma ListFits(defaults: seq<Manifest>, optional: seq<Manifest>, i: nat)
    requires Registrable(defaults, {}) && Registrable(optional, ByName(defaults).Keys) && i < |defaults + optional|
    requires IndexOk(ByName(defaults) + ByName(optional))
    ensures (defaults + optional)[i].Manifest?
    ensures var m := (defaults + optional)[i];
      ListOk(ByName(defaults) + ByName(optional), ByName(defaults).Keys, m.name, m.dependencies)
      <==> forall j :: 0 <= j < |m.dependencies| ==> DependencyFits(defaults, optional, i, j)
  {
    hide ByName, Canonical, Registrable, ListOk;
    InJointIndex(defaults, optional, i);
    var all, m := ByName(defaults) + ByName(optional), (defaults + optional)[i];
    forall j | 0 <= j < |m.dependencies|
      ensures DependencyFits(defaults, optional, i, j) <==>
        DependencyOk(all, ByName(defaults).Keys, m.name, m.dependencies[j]) && m.dependencies[j] !in m.dependencies[..j]
    {
      KnownNames(defaults, optional, m.dependencies[j]);
    }
    ListByPosition(all, ByName(defaults).Keys, m.name, m.dependencies);
  }

  lemma ListByPosition(all: Index, defaultNames: set<string>, name: string, deps: seq<string>)
    ensures ListOk(all, defaultNames, name, deps) <==>
      forall j :: 0 <= j < |deps| ==> DependencyOk(all, defaultNames, name, deps[j]) && deps[j] !in deps[..j]
  {
    hide DependencyOk;
    if ListOk(all, defaultNames, name, deps) {
      forall j | 0 <= j < |deps| ensures DependencyOk(all, defaultNames, name, deps[j]) && deps[j] !in deps[..j] {
        assert deps[j] in deps;
      }
    }
    if forall j :: 0 <= j < |deps| ==> DependencyOk(all, defaultNames, name, deps[j]) && deps[j] !in deps[..j] {
      forall i, j | 0 <= i < j < |deps| ensures deps[i] != deps[j] {
        assert deps[i] in deps[..j];
      }
    }
  }

  /** All lists are accepted exactly when each of their entries fits. */
  lemma ListsFit(defaults: seq<Manifest>, optional: seq<Manifest>)
    requires Registrable(defaults, {}) && Registrable(optional, ByName(defaults).Keys)
    requires IndexOk(ByName(defaults) + ByName(optional))
    ensures AllDependenciesOk(ByName(defaults) + ByName(optional), ByName(defaults).Keys) <==>
      var ms := defaults + optional;
      forall i, j :: 0 <= i < |ms| && ms[i].Manifest? && 0 <= j < |ms[i].dependencies| ==>
        DependencyFits(defaults, optional, i, j)
  {
    hide ByName, Canonical, Registrable, ListOk, DependencyFits;
    var ms, all := defaults + optional, ByName(defaults) + ByName(optional);
    forall i | 0 <= i < |ms|
      ensures ms[i].Manifest? && ms[i].name in all && all[ms[i].name] == ms[i]
      ensures ListOk(all, ByName(defaults).Keys, ms[i].name, ms[i].dependencies) <==>
        forall j :: 0 <= j < |ms[i].dependencies| ==> DependencyFits(defaults, optional, i, j)
    {
      InJointIndex(defaults, optional, i);
      ListFits(defaults, optional, i);
    }
    forall n | n in all ensures exists i :: 0 <= i < |ms| && Called(ms[i], n) {
      KnownNames(defaults, optional, n);
    }
  }

  /** A starter of the first name lists the second. */
  predicate Requires(ms: seq<Manifest>, name: string, dependency: string) {
    exists k :: 0 <= k < |ms| && Called(ms[k], name) && dependency in ms[k].dependencies
  }

  /** Starters each of which lists the next, back to the first. */
  predicate Circle(ms: seq<Manifest>, p: seq<string>) {
    |p| >= 2 && p[0] == p[|p| - 1] && forall i :: 0 <= i < |p| - 1 ==> Requires(ms, p[i], p[i + 1])
  }

  lemma CirclesAreCycles(defaults: seq<Manifest>, optional: seq<Manifest>, p: seq<string>)
    requires Registrable(defaults, {}) && Registrable(optional, ByName(defaults).Keys)
    ensures Circle(defaults + optional, p) <==> IsCycle(Declared(ByName(defaults) + ByName(optional)), p)
  {
    hide ByName, Canonical, Registrable;
    var ms, g := defaults + optional, Declared(ByName(defaults) + ByName(optional));
    forall i | 0 <= i < |p| - 1
      ensures p[i + 1] in DepsOf(g, p[i]) <==> Requires(ms, p[i], p[i + 1])
    {
      KnownNames(defaults, optional, p[i]);
      forall k | 0 <= k < |ms| && Called(ms[k], p[i]) ensures ms[k].dependencies == DepsOf(g, p[i]) {
        InJointIndex(defaults, optional, k);
      }
    }
  }

  lemma JointIndexOk(defaults: seq<Manifest>, optional: seq<Manifest>)
    requires Registrable(defaults, {}) && Registrable(optional, ByName(defaults).Keys)
    ensures IndexOk(ByName(defaults) + ByName(optional))
  {
    hide Canonical;
  }

  /**
    Lists of manifests that make a catalog: canonical names, all different, lists of new, known, other starters, those
    of defaults holding defaults only, and no circle.
   */
  ghost predicate MakesCatalog(defaults: seq<Manifest>, optional: seq<Manifest>) {
    var ms := defaults + optional;
    && (forall i :: 0 <= i < |ms| ==> ms[i].Manifest? && Canonical(ms[i].name))
    && (forall i, j :: 0 <= i < j < |ms| && ms[i].Manifest? && ms[j].Manifest? ==> ms[i].name != ms[j].name)
    && (forall i, j :: 0 <= i < |ms| && ms[i].Manifest? && 0 <= j < |ms[i].dependencies| ==>
          DependencyFits(defaults, optional, i, j))
    && forall p :: !Circle(ms, p)
  }

  /** These are the conditions under which registration, the list checks and the cycle search all succeed. */
  lemma MakesCatalogExactly(defaults: seq<Manifest>, optional: seq<Manifest>)
    ensures MakesCatalog(defaults, optional) <==>
      && Registrable(defaults, {}) && Registrable(optional, ByName(defaults).Keys)
      && var all := ByName(defaults) + ByName(optional);
      && IndexOk(all) && AllDependenciesOk(all, ByName(defaults).Keys) && !HasCycle(Declared(all))
  {
    hide ByName, Canonical, Registrable, AllDependenciesOk, DependencyFits, Circle, IsCycle, Declared;
    RegistrableTogether(defaults, optional);
    if Registrable(defaults, {}) && Registrable(optional, ByName(defaults).Keys) {
      JointIndexOk(defaults, optional);
      ListsFit(defaults, optional);
      forall p ensures Circle(defaults + optional, p) <==> IsCycle(Declared(ByName(defaults) + ByName(optional)), p) {
        CirclesAreCycles(defaults, optional, p);
      }
    }
  }

  /** The error of a list that cannot be registered is that of its first bad manifest. */
  lemma OffendsAtIs(ms: seq<Manifest>, taken: set<string>, i: nat, err: Option<CatalogError>)
    requires i < |ms| && OffendsAt(ms, taken, i, err)
    ensures forall j :: 0 <= j < i ==> ms[j].Manifest? && Canonical(ms[j].name) && ms[j].name !in taken
    ensures forall j, k :: 0 <= j < k < i && ms[j].Manifest? && ms[k].Manifest? ==> ms[j].name != ms[k].name
    ensures if ms[i].NilManifest? || !Canonical(ms[i].name) then err == Some(InvalidManifest)
            else
              && err == Some(DuplicateManifest)
              && (ms[i].name in taken || exists j :: 0 <= j < i && Called(ms[j], ms[i].name))
  {
    hide Canonical, ByName;
    var before := ms[..i];
    forall j | 0 <= j < i ensures before[j] == ms[j] && ms[j] in before {
    }
    RegistrableStep(ms, taken, i);
    if ManifestOk(ms[i]) {
      ByNameKeys(before, ms[i].name);
    }
  }

  lemma RegistrableStep(ms: seq<Manifest>, taken: set<string>, i: nat)
    requires i < |ms| && Registrable(ms[..i], taken)
    ensures Registrable(ms[..i + 1], taken) <==>
            ManifestOk(ms[i]) && ms[i].name !in taken && ms[i].name !in ByName(ms[..i])
    ensures !Registrable(ms[..i + 1], taken) ==> !Registrable(ms, taken)
    ensures ManifestOk(ms[i]) ==> ByName(ms[..i + 1]) == ByName(ms[..i])[ms[i].name := ms[i]]
  {
    var longer := ms[..i + 1];
    assert longer == ms[..i] + [ms[i]] && longer[..i] == ms[..i];
    if Registrable(longer, taken) {
      assert longer[i] in longer;
    }
    if ManifestOk(ms[i]) && ms[i].name !in taken && ms[i].name !in ByName(ms[..i]) {
      forall a, b | 0 <= a < b < |longer| && longer[a].Manifest? && longer[b].Manifest?
        ensures longer[a].name != longer[b].name
      {
        assert longer[a] in ms[..i];
      }
    }
    if Registrable(ms, taken) {
      assert forall m :: m in longer ==> m in ms;
    }
  }

  /** What the selection loops say about one name, given the names before it. */
  function NameError(defaultNames: set<string>, optional: set<string>, name: string, earlier: seq<string>)
    : Option<CatalogError>
  {
    if !Canonical(name) then Some(NonCanonicalName)
    else if name in earlier then Some(DuplicateName)
    else if name in defaultNames then Some(DefaultListed)
    else if name !in optional then Some(UnknownName)
    else None
  }

  /** The error of the first name that has one. */
  function FirstError(defaultNames: set<string>, optional: set<string>, names: seq<string>): Option<CatalogError> {
    if names == [] then None
    else
      var n := |names| - 1;
      var earlier := FirstError(defaultNames, optional, names[..n]);
      if earlier.Some? then earlier else NameError(defaultNames, optional, names[n], names[..n])
  }

  /** The first name that is not canonical, was listed before, is a default, or is unknown, in this order of tests. */
  lemma FirstErrorIs(defaultNames: set<string>, optional: set<string>, names: seq<string>, i: nat)
    requires i < |names|
    requires forall j :: 0 <= j < i ==>
      Canonical(names[j]) && names[j] !in names[..j] && names[j] !in defaultNames && names[j] in optional
    ensures !Canonical(names[i]) ==> FirstError(defaultNames, optional, names) == Some(NonCanonicalName)
    ensures Canonical(names[i]) && names[i] in names[..i] ==>
      FirstError(defaultNames, optional, names) == Some(DuplicateName)
    ensures Canonical(names[i]) && names[i] !in names[..i] && names[i] in defaultNames ==>
      FirstError(defaultNames, optional, names) == Some(DefaultListed)
    ensures Canonical(names[i]) && names[i] !in names[..i] && names[i] !in defaultNames && names[i] !in optional ==>
      FirstError(defaultNames, optional, names) == Some(UnknownName)
  {
    hide Canonical;
    NoErrorBefore(defaultNames, optional, names, i);
    FirstErrorStep(defaultNames, optional, names, i);
  }

  lemma {:induction false} NoErrorBefore(defaultNames: set<string>, optional: set<string>, names: seq<string>, i: nat)
    requires i <= |names|
    requires forall j :: 0 <= j < i ==>
      Canonical(names[j]) && names[j] !in names[..j] && names[j] !in defaultNames && names[j] in optional
    ensures FirstError(defaultNames, optional, names[..i]) == None
  {
    hide Canonical;
    if i > 0 {
      NoErrorBefore(defaultNames, optional, names, i - 1);
      FirstErrorStep(defaultNames, optional, names, i - 1);
    }
  }

  lemma {:induction false} FirstErrorStep(defaultNames: set<string>, optional: set<string>, names: seq<string>, i: nat)
    requires i < |names| && FirstError(defaultNames, optional, names[..i]) == None
    ensures var e := NameError(defaultNames, optional, names[i], names[..i]);
      && FirstError(defaultNames, optional, names[..i + 1]) == e
      && (e.Some? ==> FirstError(defaultNames, optional, names) == e)
    decreases |names|
  {
    assert names[..i + 1][..i] == names[..i];
    if i + 1 < |names| {
      var shorter := names[..|names| - 1];
      assert shorter[..i] == names[..i];
      FirstErrorStep(defaultNames, optional, shorter, i);
    } else {
      assert names[..i + 1] == names;
    }
  }

  /** A selection passes the loop exactly when it lists distinct optional starters. */
  lemma {:induction false} NoErrorMeansDistinctOptional(defaultNames: set<string>, optional: set<string>,
                                                        names: seq<string>)
    requires forall n :: n in optional ==> Canonical(n) && n !in defaultNames
    ensures FirstError(defaultNames, optional, names) == None <==> NoDuplicates(names) && SetOf(names) <= optional
  {
    if names != [] {
      var n := |names| - 1;
      NoErrorMeansDistinctOptional(defaultNames, optional, names[..n]);
      assert names == names[..n] + [names[n]];
      assert SetOf(names) == SetOf(names[..n]) + {names[n]};
      if NoDuplicates(names[..n]) && names[n] !in names[..n] {
        assert NoDuplicates(names);
      }
    }
  }

  // ------------------------------------------------------------ the recursive closures

  /** The locals that ResolveOptional's closure captures. */
  class Activation {
    const dependencies: Graph
    const optional: Index
    ghost const order: seq<string>
    var added: set<string>
    var resolved: seq<string>

    constructor (dependencies: Graph, optional: Index, ghost order: seq<string>)
      ensures this.dependencies == dependencies && this.optional == optional && this.order == order
      ensures added == {} && resolved == []
    {
      this.dependencies, this.optional, this.order := dependencies, optional, order;
      added, resolved := {}, [];
    }

    method AddWithDependencies(name: string)
      requires DependencyOrder(dependencies, order) && name in order && added == SetOf(resolved)
      modifies this
      ensures resolved == Add(dependencies, optional.Keys, order, name, old(resolved)) && added == SetOf(resolved)
      decreases Rank(order, name)
    {
      if name in added {
        return;
      }
      var deps := DepsOf(dependencies, name);
      ghost var bound := Rank(order, name);
      OptionalDepsRankLower(dependencies, optional.Keys, order, name);
      for i := 0 to |deps|
        invariant added == SetOf(resolved)
        invariant forall d :: d in Filter(deps[i..], optional.Keys) ==> d in order && Rank(order, d) < bound
        invariant AddAll(dependencies, optional.Keys, order, Filter(deps[i..], optional.Keys), bound, resolved)
               == AddAll(dependencies, optional.Keys, order, Filter(deps, optional.Keys), bound, old(resolved))
      {
        AddAllStep(dependencies, optional.Keys, order, deps, i, bound, resolved);
        if deps[i] in optional {
          AddWithDependencies(deps[i]);
        }
      }
      added := added + {name};
      resolved := resolved + [name];
    }
  }

  /** The locals that Select's closure captures. */
  class Assembly {
    const dependencies: Graph
    const optional: Index
    ghost const order: seq<string>
    ghost const base: seq<Manifest>
    ghost var activated: seq<string>
    var assembled: set<string>
    var selected: seq<Manifest>

    /** The selected manifests are the defaults and then those of the starters activated so far. */
    ghost predicate Valid()
      reads this
    {
      && DependencyOrder(dependencies, order) && IndexOk(optional)
      && assembled == SetOf(activated) && (forall n :: n in activated ==> n in optional)
      && selected == base + ManifestsOf(optional, activated)
    }

    constructor (defaults: seq<Manifest>, dependencies: Graph, optional: Index, ghost order: seq<string>)
      requires DependencyOrder(dependencies, order) && IndexOk(optional)
      ensures this.dependencies == dependencies && this.optional == optional && this.order == order && base == defaults
      ensures activated == [] && Valid()
    {
      this.dependencies, this.optional, this.order, base := dependencies, optional, order, defaults;
      activated, assembled, selected := [], {}, defaults;
    }

    method AppendWithDependencies(name: string)
      requires Valid() && name in order && name in optional
      modifies this
      ensures Valid() && activated == Add(dependencies, optional.Keys, order, name, old(activated))
      decreases Rank(order, name)
    {
      hide ManifestsOf, DependencyOrder, IndexOk, Rank, Filter, AddAll;
      if name in assembled {
        return;
      }
      var deps := DepsOf(dependencies, name);
      ghost var bound := Rank(order, name);
      OptionalDepsRankLower(dependencies, optional.Keys, order, name);
      AddAllEnds(dependencies, optional.Keys, order, deps, bound, activated);
      for i := 0 to |deps|
        invariant Valid()
        invariant forall d :: d in Filter(deps[i..], optional.Keys) ==> d in order && Rank(order, d) < bound
        invariant AddAll(dependencies, optional.Keys, order, Filter(deps[i..], optional.Keys), bound, activated)
               == AddAll(dependencies, optional.Keys, order, Filter(deps, optional.Keys), bound, old(activated))
      {
        AddAllStep(dependencies, optional.Keys, order, deps, i, bound, activated);
        if deps[i] in optional {
          AppendWithDependencies(deps[i]);
        }
      }
      AddAllEnds(dependencies, optional.Keys, order, deps, bound, activated);
      assembled := assembled + {name};
      OneMoreManifest(optional, activated, name);
      selected := selected + [optional[name]];
      activated := activated + [name];
    }
  }

  // ------------------------------------------------------------ the catalog

  /** The manifests appended for a list of optional starters. */
  function ManifestsOf(optional: Index, names: seq<string>): (ms: seq<Manifest>)
    requires forall n :: n in names ==> n in optional
    ensures |ms| == |names| && forall i :: 0 <= i < |ms| ==> ms[i] == optional[names[i]]
  {
    seq(|names|, i requires 0 <= i < |names| => optional[names[i]])
  }

  lemma OneMoreManifest(optional: Index, names: seq<string>, name: string)
    requires name in optional && forall n :: n in names ==> n in optional
    ensures ManifestsOf(optional, names + [name]) == ManifestsOf(optional, names) + [optional[name]]
  {
  }

  class Catalog {
    var defaults: seq<Manifest>
    var defaultNames: set<string>
    var optional: Index
    var dependencies: Graph
    ghost var order: seq<string>

    /** A validated catalog; order is the order in which the cycle check finished the starters. */
    ghost predicate Valid()
      reads this
    {
      && defaultNames !! optional.Keys && IndexOk(optional)
      && DependencyOrder(dependencies, order) && SetOf(order) == defaultNames + optional.Keys
      && (forall n :: n in dependencies ==> n in order)
      && (forall n, d :: n in order && d in DepsOf(dependencies, n) ==> d in order)
      && (forall n, d :: n in defaultNames && d in DepsOf(dependencies, n) ==> d in defaultNames)
    }

    constructor ()
      ensures defaults == [] && defaultNames == {} && optional == map[] && dependencies == map[]
    {
      defaults, defaultNames, optional, dependencies, order := [], {}, map[], map[], [];
    }

    /** The checks on one manifest; an accepted list becomes the starter's dependencies. */
    method CollectManifest(all: Index, name: string) returns (ok: bool)
      requires IndexOk(all) && name in all && name !in dependencies
      modifies this`dependencies
      ensures ok <==> DependenciesOk(all, defaultNames, name)
      ensures ok ==> DepsOf(dependencies, name) == all[name].dependencies
      ensures dependencies.Keys <= old(dependencies).Keys + {name}
      ensures forall n :: n != name ==> DepsOf(dependencies, n) == DepsOf(old(dependencies), n)
    {
      var deps := all[name].dependencies;
      var seen: set<string> := {};
      assert ListOk(all, defaultNames, name, deps[..0]);
      hide ListOk, Canonical;
      for i := 0 to |deps|
        invariant seen == SetOf(deps[..i]) && ListOk(all, defaultNames, name, deps[..i])
        invariant DepsOf(dependencies, name) == deps[..i]
        invariant dependencies.Keys <= old(dependencies).Keys + {name}
        invariant forall n :: n != name ==> DepsOf(dependencies, n) == DepsOf(old(dependencies), n)
      {
        var dependency := deps[i];
        var nameOk := CheckName(dependency);
        ListOkStep(all, defaultNames, name, deps, i);
        if !nameOk || dependency == name || dependency in seen || dependency !in all
           || (name in defaultNames && dependency !in defaultNames) {
          return false;
        }
        assert deps[..i + 1] == deps[..i] + [dependency];
        seen := seen + {dependency};
        dependencies := dependencies[name := DepsOf(dependencies, name) + [dependency]];
      }
      assert deps[..|deps|] == deps;
      return true;
    }

    method CollectDependencies(all: Index) returns (ok: bool)
      requires IndexOk(all) && dependencies == map[]
      modifies this`dependencies
      ensures ok <==> AllDependenciesOk(all, defaultNames)
      ensures ok ==>
        dependencies.Keys <= all.Keys && forall n :: n in all ==> DepsOf(dependencies, n) == all[n].dependencies
    {
      var todo := all.Keys;
      while todo != {}
        invariant todo <= all.Keys && dependencies.Keys <= all.Keys - todo
        invariant forall n :: n in all.Keys - todo ==>
          DependenciesOk(all, defaultNames, n) && DepsOf(dependencies, n) == all[n].dependencies
      {
        var name :| name in todo;
        ok := CollectManifest(all, name);
        if !ok {
          return false;
        }
        todo := todo - {name};
      }
      return true;
    }

    /** Registers the dependencies, then searches for a cycle; on acceptance the catalog is valid. */
    method ValidateDependencies() returns (err: Option<CatalogError>)
      requires defaultNames !! optional.Keys && IndexOk(optional) && dependencies == map[]
      requires IndexOk(ByName(defaults)) && ByName(defaults).Keys == defaultNames
      modifies this`dependencies, this`order
      ensures var all := ByName(defaults) + optional;
        && IndexOk(all)
        && (err == Some(InvalidDependency) <==> !AllDependenciesOk(all, defaultNames))
        && (err == Some(DependencyCycle) <==> AllDependenciesOk(all, defaultNames) && HasCycle(Declared(all)))
        && (err == None <==> AllDependenciesOk(all, defaultNames) && !HasCycle(Declared(all)))
        && (err == None ==> Valid() && forall n :: n in all ==> DepsOf(dependencies, n) == all[n].dependencies)
    {
      var all := ByName(defaults) + optional;
      var ok := CollectDependencies(all);
      if !ok {
        return Some(InvalidDependency);
      }
      forall n, d | n in all && d in DepsOf(dependencies, n)
        ensures d in all && (n in defaultNames ==> d in defaultNames)
      {
        assert DependenciesOk(all, defaultNames, n) && DependencyOk(all, defaultNames, n, d);
      }
      forall n ensures DepsOf(dependencies, n) == DepsOf(Declared(all), n) {
      }
      SameDependenciesSameCycles(dependencies, Declared(all));
      var visitor := new Visitor(dependencies, all.Keys);
      var cyclic := visitor.VisitAll(all.Keys);
      if cyclic {
        return Some(DependencyCycle);
      }
      order := visitor.finished;
      assert forall n :: n in order <==> n in SetOf(order);
      return None;
    }

    /** Registers manifests whose names are not taken, in order; stops at the first that cannot be. */
    static method Register(ms: seq<Manifest>, taken: set<string>) returns (index: Index, err: Option<CatalogError>)
      ensures err == None <==> Registrable(ms, taken)
      ensures err == None ==> index == ByName(ms) && IndexOk(index) && index.Keys !! taken
      ensures err != None ==> exists i :: 0 <= i < |ms| && OffendsAt(ms, taken, i, err)
    {
      index, err := map[], None;
      for i := 0 to |ms|
        invariant Registrable(ms[..i], taken) && index == ByName(ms[..i]) && IndexOk(index) && index.Keys !! taken
      {
        RegistrableStep(ms, taken, i);
        if !ManifestOk(ms[i]) {
          assert OffendsAt(ms, taken, i, Some(InvalidManifest));
          return index, Some(InvalidManifest);
        }
        if ms[i].name in taken || ms[i].name in index {
          assert OffendsAt(ms, taken, i, Some(DuplicateManifest));
          return index, Some(DuplicateManifest);
        }
        index := index[ms[i].name := ms[i]];
      }
      assert ms[..|ms|] == ms;
    }

    /** Builds the catalog exactly when names are canonical and distinct, lists are well formed and no cycle exists. */
    static method NewCatalog(defaults: seq<Manifest>, optional: seq<Manifest>)
      returns (c: Catalog?, err: Option<CatalogError>)
      ensures err == None <==> MakesCatalog(defaults, optional)
      ensures err == None <==>
        && Registrable(defaults, {}) && Registrable(optional, ByName(defaults).Keys)
        && var all := ByName(defaults) + ByName(optional);
        && IndexOk(all) && AllDependenciesOk(all, ByName(defaults).Keys) && !HasCycle(Declared(all))
      ensures err == None ==>
        && c != null && fresh(c) && c.Valid()
        && c.defaults == defaults && c.defaultNames == ByName(defaults).Keys && c.optional == ByName(optional)
        && forall n :: n in c.defaultNames + c.optional.Keys ==>
             DepsOf(c.dependencies, n) == (ByName(defaults) + ByName(optional))[n].dependencies
      ensures err != None ==> c == null
      ensures !Registrable(defaults, {}) ==> exists i :: 0 <= i < |defaults| && OffendsAt(defaults, {}, i, err)
      ensures Registrable(defaults, {}) && !Registrable(optional, ByName(defaults).Keys) ==>
        exists i :: 0 <= i < |optional| && OffendsAt(optional, ByName(defaults).Keys, i, err)
      ensures Registrable(defaults, {}) && Registrable(optional, ByName(defaults).Keys) && err != None ==>
        var all := ByName(defaults) + ByName(optional);
        && IndexOk(all)
        && err == Some(if AllDependenciesOk(all, ByName(defaults).Keys) then DependencyCycle else InvalidDependency)
    {
      MakesCatalogExactly(defaults, optional);
      var defaultIndex, optionalIndex;
      defaultIndex, err := Register(defaults, {});
      if err != None {
        return null, err;
      }
      optionalIndex, err := Register(optional, defaultIndex.Keys);
      if err != None {
        return null, err;
      }
      c := new Catalog();
      c.defaults, c.defaultNames, c.optional := defaults, defaultIndex.Keys, optionalIndex;
      err := c.ValidateDependencies();
      if err != None {
        return null, err;
      }
    }

    method CheckNames(names: seq<string>) returns (err: Option<CatalogError>)
      ensures err == FirstError(defaultNames, optional.Keys, names)
    {
      var seen: set<string> := {};
      for i := 0 to |names|
        invariant seen == SetOf(names[..i]) && FirstError(defaultNames, optional.Keys, names[..i]) == None
      {
        var name := names[i];
        FirstErrorStep(defaultNames, optional.Keys, names, i);
        assert name in seen <==> name in names[..i];
        assert names[..i + 1] == names[..i] + [name];
        var nameOk := CheckName(name);
        if !nameOk {
          return Some(NonCanonicalName);
        }
        if name in seen {
          return Some(DuplicateName);
        }
        if name in defaultNames {
          return Some(DefaultListed);
        }
        if name !in optional {
          return Some(UnknownName);
        }
        seen := seen + {name};
      }
      assert names[..|names|] == names;
      return None;
    }

    lemma AcceptedNamesAreOrdered(names: seq<string>)
      requires Valid() && FirstError(defaultNames, optional.Keys, names) == None
      ensures NoDuplicates(names) && forall n :: n in names ==> n in optional && n in order
    {
      NoErrorMeansDistinctOptional(defaultNames, optional.Keys, names);
      forall n | n in names ensures n in optional && n in order {
        assert n in SetOf(names);
        assert n in SetOf(order);
      }
    }

    /** Completes a selection: the activation order of its least closure under optional dependencies. */
    method ResolveOptional(names: seq<string>) returns (r: Result<seq<string>, CatalogError>)
      requires Valid()
      ensures r.Err? ==> Some(r.error) == FirstError(defaultNames, optional.Keys, names)
      ensures r.Ok? <==> NoDuplicates(names) && SetOf(names) <= optional.Keys
      ensures r.Ok? ==>
        && (forall n :: n in names ==> n in order)
        && r.value == Resolve(dependencies, optional.Keys, order, names)
    {
      NoErrorMeansDistinctOptional(defaultNames, optional.Keys, names);
      var err := CheckNames(names);
      if err.Some? {
        return Err(err.value);
      }
      AcceptedNamesAreOrdered(names);
      var activation := new Activation(dependencies, optional, order);
      for i := 0 to |names|
        invariant activation.added == SetOf(activation.resolved)
        invariant AddAll(dependencies, optional.Keys, order, names[i..], |order|, activation.resolved)
               == Resolve(dependencies, optional.Keys, order, names)
      {
        assert names[i..][0] == names[i] && names[i..][1..] == names[i + 1..];
        activation.AddWithDependencies(names[i]);
      }
      return Ok(activation.resolved);
    }

    method LacksDependency(name: string, seen: set<string>) returns (missing: bool)
      requires Valid() && name in order
      ensures missing <==> !(forall d :: d in OptionalDeps(dependencies, optional.Keys, name) ==> d in seen)
    {
      var deps := DepsOf(dependencies, name);
      for i := 0 to |deps|
        invariant forall j :: 0 <= j < i && deps[j] in optional ==> deps[j] in seen
      {
        assert deps[i] in SetOf(order);
        if deps[i] !in defaultNames && deps[i] !in seen {
          assert deps[i] in OptionalDeps(dependencies, optional.Keys, name);
          return true;
        }
      }
      return false;
    }

    /** Looks for a selected starter with an unselected optional dependency. */
    method MissingDependencyIn(seen: set<string>) returns (missing: bool)
      requires Valid() && seen <= optional.Keys
      ensures missing <==> !ClosedUnder(dependencies, optional.Keys, seen)
    {
      var todo := seen;
      while todo != {}
        invariant todo <= seen
        invariant forall n, d :: n in seen - todo && d in OptionalDeps(dependencies, optional.Keys, n) ==> d in seen
      {
        var name :| name in todo;
        assert name in SetOf(order);
        missing := LacksDependency(name, seen);
        if missing {
          return true;
        }
        todo := todo - {name};
      }
      return false;
    }

    /** All defaults, then the selected optional starters, each after the optional starters it needs. */
    method Select(names: seq<string>) returns (r: Result<seq<Manifest>, CatalogError>)
      requires Valid()
      ensures r.Ok? <==>
        NoDuplicates(names) && SetOf(names) <= optional.Keys && ClosedUnder(dependencies, optional.Keys, SetOf(names))
      ensures r.Err? ==>
        var e := FirstError(defaultNames, optional.Keys, names);
        r.error == if e.Some? then e.value else MissingDependency
      ensures r.Ok? ==>
        && (forall n :: n in names ==> n in order)
        && var activated := Resolve(dependencies, optional.Keys, order, names);
        && (forall n :: n in activated ==> n in optional)
        && r.value == defaults + ManifestsOf(optional, activated)
    {
      NoErrorMeansDistinctOptional(defaultNames, optional.Keys, names);
      var err := CheckNames(names);
      if err.Some? {
        return Err(err.value);
      }
      var missing := MissingDependencyIn(SetOf(names));
      if missing {
        return Err(MissingDependency);
      }
      AcceptedNamesAreOrdered(names);
      var assembly := new Assembly(defaults, dependencies, optional, order);
      for i := 0 to |names|
        invariant assembly.Valid()
        invariant AddAll(dependencies, optional.Keys, order, names[i..], |order|, assembly.activated)
               == Resolve(dependencies, optional.Keys, order, names)
      {
        assert names[i..][0] == names[i] && names[i..][1..] == names[i + 1..];
        assembly.AppendWithDependencies(names[i]);
      }
      return Ok(assembly.selected);
    }

    /** Select accepts whatever ResolveOptional returns, and activates exactly that list in that order. */
    lemma SelectFollowsResolve(names: seq<string>)
      requires Valid() && NoDuplicates(names) && SetOf(names) <= optional.Keys
      ensures forall n :: n in names ==> n in order
      ensures var r := Resolve(dependencies, optional.Keys, order, names);
        && NoDuplicates(r) && SetOf(r) <= optional.Keys && ClosedUnder(dependencies, optional.Keys, SetOf(r))
        && (forall n :: n in r ==> n in order)
        && Resolve(dependencies, optional.Keys, order, r) == r
    {
      NoErrorMeansDistinctOptional(defaultNames, optional.Keys, names);
      AcceptedNamesAreOrdered(names);
      ResolveIsLeastClosure(dependencies, optional.Keys, order, names);
      ResolveIsIdempotent(dependencies, optional.Keys, order, names);
      assert ClosedUnder(dependencies, optional.Keys, optional.Keys);
    }
  }
}
