/** The dependency graph of the component map and its validation
    (`getDependencyErrors`, lib/node/builder/builder.ts:555-584).

    Every `depends_on` entry is qualified with the referring component's
    project unless it already names one; entries that resolve become the
    component's resolved-dependency list (`_circular_dep_checker`), the others
    are reported. The source detects a cycle by serialising the map, which fails
    exactly when some component reaches itself through resolved dependencies;
    the model decides that by peeling off, round after round, the components
    whose dependencies have all been peeled, and proves that what is left is
    non-empty exactly when the graph has a cycle. */
module Graph {
  import opened Wrappers
  import opened Text
  import opened Manifest

  /** A resolved-dependency graph: each component's fullname to the fullnames
      of its resolved dependencies, in `depends_on` order. */
  type Edges = map<string, seq<string>>

  /** The fullname a `depends_on` entry refers to. */
  function QualifyDep(project: string, dep: string): (r: string)
    ensures '/' in dep ==> r == dep
    ensures '/' !in dep ==> r == QualifyName(project, dep)
  {
    if '/' in dep then dep else QualifyName(project, dep)
  }

  datatype DepError =
    | DependencyNotFound(file: string, dep: string)
    | CircularDependency

  /** The entries of `ds` that resolve in the map, qualified, in order. */
  function ResolvedList(reg: Registry, project: string, ds: seq<string>): (r: seq<string>)
    ensures forall x :: x in r ==> x in reg.comps
    decreases |ds|
  {
    if ds == [] then []
    else
      var prev := ResolvedList(reg, project, ds[..|ds| - 1]);
      var q := QualifyDep(project, ds[|ds| - 1]);
      if q in reg.comps then prev + [q] else prev
  }

  /** The "not found" errors for the entries of `ds` of component `c`, in order. */
  function BrokenList(reg: Registry, c: Component, ds: seq<string>): (r: seq<DepError>)
    ensures forall e :: e in r ==> e.DependencyNotFound? && e.file == c.manifestPath && e.dep !in reg.comps
    decreases |ds|
  {
    if ds == [] then []
    else
      var prev := BrokenList(reg, c, ds[..|ds| - 1]);
      var q := QualifyDep(c.project, ds[|ds| - 1]);
      if q in reg.comps then prev else prev + [DependencyNotFound(c.manifestPath, q)]
  }

  /** The "not found" errors of the components `keys`, in order. */
  function BrokenIn(reg: Registry, keys: seq<string>): (r: seq<DepError>)
    requires forall k :: k in keys ==> k in reg.comps
    ensures forall e :: e in r ==> e.DependencyNotFound? && e.dep !in reg.comps
    decreases |keys|
  {
    if keys == [] then []
    else
      var k := keys[|keys| - 1];
      BrokenIn(reg, keys[..|keys| - 1]) + BrokenList(reg, reg.comps[k], reg.comps[k].dependsOn)
  }

  /** Every entry of `ds` resolves exactly when no entry is reported, and then
      every entry yields one resolved dependency. */
  lemma {:induction false} BrokenListEmpty(reg: Registry, c: Component, ds: seq<string>)
    ensures BrokenList(reg, c, ds) == [] <==> forall d :: d in ds ==> QualifyDep(c.project, d) in reg.comps
    ensures BrokenList(reg, c, ds) == [] ==> |ResolvedList(reg, c.project, ds)| == |ds|
    decreases |ds|
  {
    if ds != [] {
      BrokenListEmpty(reg, c, ds[..|ds| - 1]);
      assert forall d :: d in ds <==> d in ds[..|ds| - 1] || d == ds[|ds| - 1];
    }
  }

  /** No component of `keys` reports an entry exactly when all their entries resolve. */
  lemma {:induction false} BrokenInEmpty(reg: Registry, keys: seq<string>)
    requires forall k :: k in keys ==> k in reg.comps
    ensures BrokenIn(reg, keys) == [] <==> forall k, d :: k in keys && d in reg.comps[k].dependsOn ==>
      QualifyDep(reg.comps[k].project, d) in reg.comps
    decreases |keys|
  {
    if keys != [] {
      var k := keys[|keys| - 1];
      BrokenInEmpty(reg, keys[..|keys| - 1]);
      BrokenListEmpty(reg, reg.comps[k], reg.comps[k].dependsOn);
      assert forall x :: x in keys <==> x in keys[..|keys| - 1] || x == k;
    }
  }

  /** The resolved dependencies of component `k`. */
  function DepsOf(reg: Registry, k: string): seq<string>
    requires k in reg.comps
  {
    ResolvedList(reg, reg.comps[k].project, reg.comps[k].dependsOn)
  }

  /** The resolved dependencies of every component. */
  function ResolvedEdges(reg: Registry): (g: Edges)
    ensures g.Keys == reg.comps.Keys
    ensures forall k :: k in g ==> g[k] == DepsOf(reg, k)
    ensures Closed(g)
  {
    map k | k in reg.comps :: DepsOf(reg, k)
  }

  /** The resolved dependencies of the components `keys`. */
  function EdgesOver(reg: Registry, keys: seq<string>): (g: Edges)
    requires forall k :: k in keys ==> k in reg.comps
    ensures forall k :: k in g <==> k in keys
    ensures forall k :: k in g ==> k in reg.comps && g[k] == DepsOf(reg, k)
    decreases |keys|
  {
    if keys == [] then map[]
    else
      var k := keys[|keys| - 1];
      assert forall x :: x in keys <==> x in keys[..|keys| - 1] || x == k;
      EdgesOver(reg, keys[..|keys| - 1])[k := DepsOf(reg, k)]
  }

  lemma EdgesOverAll(reg: Registry)
    requires Valid(reg)
    ensures EdgesOver(reg, reg.order) == ResolvedEdges(reg)
  {
  }

  /** Every `depends_on` entry of every component resolves. */
  predicate AllDepsResolve(reg: Registry) {
    forall k, d :: k in reg.comps && d in reg.comps[k].dependsOn ==>
      QualifyDep(reg.comps[k].project, d) in reg.comps
  }

  // ---------------------------------------------------------------------------
  // Cycles
  // ---------------------------------------------------------------------------

  /** Every dependency is itself a node of the graph. */
  predicate Closed(g: Edges) {
    forall a, b :: a in g && b in g[a] ==> b in g
  }

  /** `p` follows dependency edges from each element to the next. */
  ghost predicate IsWalk(g: Edges, p: seq<string>) {
    forall i :: 0 <= i < |p| - 1 ==> p[i] in g && p[i + 1] in g[p[i]]
  }

  /** A walk of at least one edge that comes back to where it started. */
  ghost predicate IsCycle(g: Edges, p: seq<string>) {
    |p| >= 2 && p[0] == p[|p| - 1] && IsWalk(g, p)
  }

  ghost predicate HasCycle(g: Edges) {
    exists p :: IsCycle(g, p)
  }

  /** The nodes of `s` none of whose dependencies is in `s`. */
  function Ready(g: Edges, s: set<string>): (r: set<string>)
    ensures r <= s
    ensures forall a :: a in r <==> a in s && a in g && forall b :: b in g[a] ==> b !in s
  {
    set a | a in s && a in g && forall b :: b in g[a] ==> b !in s
  }

  /** Remove ready nodes until none is ready; the nodes left over. */
  function Peel(g: Edges, s: set<string>): (r: set<string>)
    ensures r <= s
    ensures Ready(g, r) == {}
    decreases |s|
  {
    var ready := Ready(g, s);
    if ready == {} then s
    else
      assert |s - ready| < |s| by {
        var a :| a in ready;
        assert s - ready <= s - {a};
        assert |s - {a}| == |s| - 1;
      }
      Peel(g, s - ready)
  }

  /** The graph has no cycle, as decided by peeling. */
  predicate Acyclic(g: Edges) {
    Peel(g, g.Keys) == {}
  }

  /** A sequence longer than the set its elements come from repeats one. */
  lemma {:induction false} Pigeonhole(p: seq<string>, s: set<string>)
    requires forall i :: 0 <= i < |p| ==> p[i] in s
    requires |p| > |s|
    ensures exists i, j :: 0 <= i < j < |p| && p[i] == p[j]
    decreases |p|
  {
    if p[0] in p[1..] {
      var j :| 0 <= j < |p[1..]| && p[1..][j] == p[0];
      assert p[0] == p[j + 1];
    } else {
      var s' := s - {p[0]};
      assert forall i :: 0 <= i < |p[1..]| ==> p[1..][i] in s' by {
        forall i | 0 <= i < |p[1..]| ensures p[1..][i] in s' {
          assert p[1..][i] in p[1..];
        }
      }
      Pigeonhole(p[1..], s');
      var i, j :| 0 <= i < j < |p[1..]| && p[1..][i] == p[1..][j];
      assert p[i + 1] == p[j + 1];
    }
  }

  /** Node `a` has a dependency inside `s`. */
  ghost predicate HasDepIn(g: Edges, a: string, s: set<string>) {
    a in g && exists b :: b in g[a] && b in s
  }

  /** In a set where every node has a dependency inside the set, a walk of any
      length can be taken. */
  lemma {:induction false} LongWalk(g: Edges, s: set<string>, n: nat) returns (p: seq<string>)
    requires s != {}
    requires forall a :: a in s ==> HasDepIn(g, a, s)
    ensures |p| == n + 1 && IsWalk(g, p)
    ensures forall i :: 0 <= i < |p| ==> p[i] in s
  {
    if n == 0 {
      var a :| a in s;
      p := [a];
    } else {
      var q := LongWalk(g, s, n - 1);
      var last := q[n - 1];
      assert HasDepIn(g, last, s);
      var b :| b in g[last] && b in s;
      p := q + [b];
      forall i | 0 <= i < |p| - 1 ensures p[i] in g && p[i + 1] in g[p[i]] {
        if i < |q| - 1 {
          assert p[i] == q[i] && p[i + 1] == q[i + 1];
        } else {
          assert p[i] == last && p[i + 1] == b;
        }
      }
    }
  }

  /** A non-empty set where every node has a dependency inside the set holds a cycle. */
  lemma StuckSetHasCycle(g: Edges, s: set<string>)
    requires s != {}
    requires forall a :: a in s ==> HasDepIn(g, a, s)
    ensures HasCycle(g)
  {
    var p := LongWalk(g, s, |s|);
    Pigeonhole(p, s);
    var i, j :| 0 <= i < j < |p| && p[i] == p[j];
    var c := p[i..j + 1];
    forall k | 0 <= k < |c| - 1 ensures c[k] in g && c[k + 1] in g[c[k]] {
      assert c[k] == p[i + k] && c[k + 1] == p[i + k + 1];
    }
    assert IsCycle(g, c);
  }

  /** Peeling never removes a node of a cycle. */
  lemma {:induction false} CycleSurvivesPeel(g: Edges, s: set<string>, p: seq<string>)
    requires IsCycle(g, p)
    requires forall i :: 0 <= i < |p| ==> p[i] in s
    ensures forall i :: 0 <= i < |p| ==> p[i] in Peel(g, s)
    decreases |s|
  {
    var ready := Ready(g, s);
    forall i | 0 <= i < |p| ensures p[i] !in ready {
      var next := if i < |p| - 1 then i + 1 else 1;
      var at := if i < |p| - 1 then i else 0;
      assert p[at] == p[i];
      assert p[next] in g[p[at]] && p[next] in s;
    }
    if ready != {} {
      assert |s - ready| < |s| by {
        var a :| a in ready;
        assert s - ready <= s - {a};
        assert |s - {a}| == |s| - 1;
      }
      CycleSurvivesPeel(g, s - ready, p);
    }
  }

  /** Peeling leaves nothing over exactly when the graph has no cycle. */
  lemma AcyclicExactly(g: Edges)
    ensures Acyclic(g) <==> !HasCycle(g)
  {
    var r := Peel(g, g.Keys);
    if r != {} {
      forall a | a in r ensures HasDepIn(g, a, r) {
        assert a !in Ready(g, r);
      }
      StuckSetHasCycle(g, r);
    }
    if HasCycle(g) {
      var p :| IsCycle(g, p);
      forall i | 0 <= i < |p| ensures p[i] in g.Keys {
        if i == |p| - 1 { assert p[i] == p[0]; }
      }
      CycleSurvivesPeel(g, g.Keys, p);
      assert p[0] in r;
    }
  }

  /** In an acyclic graph every non-empty set of nodes has a node none of whose
      dependencies is in the set. */
  lemma AcyclicHasReady(g: Edges, s: set<string>)
    requires Acyclic(g)
    requires s != {} && s <= g.Keys
    ensures Ready(g, s) != {}
  {
    if Ready(g, s) == {} {
      forall a | a in s ensures HasDepIn(g, a, s) {
        assert a !in Ready(g, s);
      }
      StuckSetHasCycle(g, s);
      AcyclicExactly(g);
    }
  }

  // ---------------------------------------------------------------------------
  // Validation
  // ---------------------------------------------------------------------------

  /** All the errors of `getDependencyErrors`: the unresolved entries in
      component order, then one circular-dependency error if there is a cycle. */
  function DependencyErrors(reg: Registry): seq<DepError>
    requires Valid(reg)
  {
    BrokenIn(reg, reg.order) + if Acyclic(ResolvedEdges(reg)) then [] else [CircularDependency]
  }

  /** The map passes validation exactly when every dependency resolves and the
      resolved dependencies have no cycle. */
  lemma DependencyErrorsExactly(reg: Registry)
    requires Valid(reg)
    ensures DependencyErrors(reg) == [] <==> AllDepsResolve(reg) && !HasCycle(ResolvedEdges(reg))
  {
    AcyclicExactly(ResolvedEdges(reg));
    BrokenInEmpty(reg, reg.order);
  }

  /** The inner loop of `getDependencyErrors` over one component's `depends_on`:
      its resolved dependencies and its "not found" errors. */
  method ResolveComponent(reg: Registry, compo: Component) returns (checker: seq<string>, broken: seq<DepError>)
    ensures checker == ResolvedList(reg, compo.project, compo.dependsOn)
    ensures broken == BrokenList(reg, compo, compo.dependsOn)
  {
    checker, broken := [], [];
    for j := 0 to |compo.dependsOn|
      invariant checker == ResolvedList(reg, compo.project, compo.dependsOn[..j])
      invariant broken == BrokenList(reg, compo, compo.dependsOn[..j])
    {
      assert compo.dependsOn[..j + 1][..j] == compo.dependsOn[..j];
      var depfullname := QualifyDep(compo.project, compo.dependsOn[j]);
      if depfullname !in reg.comps {
        broken := broken + [DependencyNotFound(compo.manifestPath, depfullname)];
        continue;
      }
      checker := checker + [depfullname];
    }
    assert compo.dependsOn[..|compo.dependsOn|] == compo.dependsOn;
  }

  /** The outer loop of `getDependencyErrors`: the "not found" errors in
      component order and the resolved dependency lists. */
  method CollectDependencies(reg: Registry) returns (errs: seq<DepError>, deps: Edges)
    requires Valid(reg)
    ensures errs == BrokenIn(reg, reg.order)
    ensures deps == ResolvedEdges(reg)
  {
    errs, deps := [], map[];
    for i := 0 to |reg.order|
      invariant forall k :: k in reg.order[..i] ==> k in reg.comps
      invariant errs == BrokenIn(reg, reg.order[..i])
      invariant deps == EdgesOver(reg, reg.order[..i])
    {
      var fullname := reg.order[i];
      var checker, broken := ResolveComponent(reg, reg.comps[fullname]);
      CollectStep(reg, reg.order, i);
      errs := errs + broken;
      deps := deps[fullname := checker];
    }
    assert reg.order[..|reg.order|] == reg.order;
    EdgesOverAll(reg);
  }

  /** Taking one more component into the outer loop appends its errors and
      records its resolved dependencies. */
  lemma CollectStep(reg: Registry, keys: seq<string>, i: nat)
    requires i < |keys| && forall k :: k in keys ==> k in reg.comps
    ensures var k := keys[i];
      && BrokenIn(reg, keys[..i + 1]) == BrokenIn(reg, keys[..i]) + BrokenList(reg, reg.comps[k], reg.comps[k].dependsOn)
      && EdgesOver(reg, keys[..i + 1]) == EdgesOver(reg, keys[..i])[k := DepsOf(reg, k)]
  {
    assert keys[..i + 1][..i] == keys[..i];
  }

  /** `getDependencyErrors`: the errors (`None` for `null`) and the resolved
      dependency lists it records on the components. */
  method GetDependencyErrors(reg: Registry) returns (errors: Option<seq<DepError>>, deps: Edges)
    requires Valid(reg)
    ensures deps == ResolvedEdges(reg)
    ensures errors == if DependencyErrors(reg) == [] then None else Some(DependencyErrors(reg))
  {
    var errs;
    errs, deps := CollectDependencies(reg);
    // `JSON.stringify(map)` throws exactly on a cycle of resolved dependencies
    var circular: seq<DepError> := if Acyclic(deps) then [] else [CircularDependency];
    errs := errs + circular;
    errors := if errs == [] then None else Some(errs);
  }
}
