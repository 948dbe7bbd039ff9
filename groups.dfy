/** The build groups (`orderBuildsInGroups`, lib/node/builder/builder.ts:586-627).

    Group 0 holds the components with no `depends_on`; each later group holds
    the components not yet grouped all of whose resolved dependencies are in
    earlier groups. Within a group components keep registration order. The
    model records, as a ghost map, the group each component lands in, and proves
    that this is its level: 0 without dependencies, otherwise one more than the
    highest level among its dependencies, so the grouping is fully determined
    by the graph. */
module Groups {
  import opened Wrappers
  import opened Manifest
  import opened Graph

  /** `s` without the elements of `x`, in order (`delete map[k]` for each `k` in `x`). */
  function Without(s: seq<string>, x: set<string>): (r: seq<string>)
    ensures forall k :: k in r <==> k in s && k !in x
    decreases |s|
  {
    if s == [] then []
    else (if s[0] in x then [] else [s[0]]) + Without(s[1..], x)
  }

  /** Removing a set that meets `s` shortens it. */
  lemma {:induction false} WithoutShrinks(s: seq<string>, x: set<string>, k: string)
    requires k in s && k in x
    ensures |Without(s, x)| < |s|
    decreases |s|
  {
    if s[0] != k {
      WithoutShrinks(s[1..], x, k);
    } else {
      WithoutNoLonger(s[1..], x);
    }
  }

  lemma {:induction false} WithoutNoLonger(s: seq<string>, x: set<string>)
    ensures |Without(s, x)| <= |s|
    decreases |s|
  {
    if s != [] {
      WithoutNoLonger(s[1..], x);
    }
  }

  /** The elements of `order` placed at level `n`, in order. */
  function Members(order: seq<string>, level: map<string, nat>, n: nat): (r: seq<string>)
    ensures forall k :: k in r <==> k in order && k in level && level[k] == n
    decreases |order|
  {
    if order == [] then []
    else (if order[0] in level && level[order[0]] == n then [order[0]] else []) + Members(order[1..], level, n)
  }

  /** Every resolved dependency of `k` has been built. */
  predicate DepsBuilt(g: Edges, k: string, built: set<string>) {
    k in g && forall d :: d in g[k] ==> d in built
  }

  /** The elements of `s` whose dependencies have all been built, in order. */
  function ReadyAmong(s: seq<string>, g: Edges, built: set<string>): (r: seq<string>)
    ensures forall k :: k in r <==> k in s && DepsBuilt(g, k, built)
    decreases |s|
  {
    if s == [] then []
    else (if DepsBuilt(g, s[0], built) then [s[0]] else []) + ReadyAmong(s[1..], g, built)
  }

  /** Every dependency of `k` is placed below level `n`. */
  predicate DepsBelow(g: Edges, level: map<string, nat>, k: string, n: int)
    requires k in g
  {
    forall d :: d in g[k] ==> d in level && level[d] < n
  }

  /** Some dependency of `k` is placed at level `n`. */
  ghost predicate SomeDepAt(g: Edges, level: map<string, nat>, k: string, n: int)
    requires k in g
  {
    exists d :: d in g[k] && d in level && level[d] == n
  }

  /** The levels of the components placed so far obey the grouping rule: all
      dependencies lower, and one of them exactly one level lower. */
  ghost predicate LayeredSoFar(g: Edges, level: map<string, nat>) {
    && level.Keys <= g.Keys
    && (forall k :: k in level ==> DepsBelow(g, level, k, level[k]))
    && (forall k :: k in level && level[k] > 0 ==> SomeDepAt(g, level, k, level[k] - 1))
  }

  /** Every component is placed, by the grouping rule. */
  ghost predicate Layered(g: Edges, level: map<string, nat>) {
    LayeredSoFar(g, level) && level.Keys == g.Keys
  }

  /** The groups list the components by level, in registration order, with no empty group. */
  ghost predicate GroupsByLevel(order: seq<string>, level: map<string, nat>, groups: seq<seq<string>>) {
    && (forall k :: k in level ==> level[k] < |groups|)
    && (forall n :: 0 <= n < |groups| ==> groups[n] == Members(order, level, n) && groups[n] != [])
  }

  /** What validation established about the graph: its nodes are the listed
      components, it is closed and acyclic. */
  ghost predicate GraphFacts(order: seq<string>, g: Edges) {
    (forall k :: k in g <==> k in order) && Closed(g) && Acyclic(g)
  }

  /** A validated map gives such a graph, and a component has no `depends_on`
      exactly when it has no resolved dependency. */
  lemma ValidatedGraph(reg: Registry, g: Edges)
    requires Valid(reg) && g == ResolvedEdges(reg) && DependencyErrors(reg) == []
    ensures GraphFacts(reg.order, g)
    ensures forall k :: k in reg.comps ==> (reg.comps[k].dependsOn == [] <==> g[k] == [])
  {
    assert BrokenIn(reg, reg.order) == [] && Acyclic(g);
    BrokenInEmpty(reg, reg.order);
    forall k | k in reg.comps
      ensures reg.comps[k].dependsOn == [] <==> g[k] == []
    {
      BrokenListEmpty(reg, reg.comps[k], reg.comps[k].dependsOn);
    }
  }

  /** Level 0 holds exactly the components without resolved dependencies. */
  lemma LevelZeroExactly(g: Edges, level: map<string, nat>, k: string)
    requires LayeredSoFar(g, level) && k in level
    ensures level[k] == 0 <==> g[k] == []
  {
    if g[k] != [] {
      assert g[k][0] in g[k];
    }
  }

  /** The state the grouping loop keeps between rounds. */
  ghost predicate RoundInvariant(order: seq<string>, g: Edges, level: map<string, nat>, built: set<string>,
                                 remaining: seq<string>, groups: seq<seq<string>>) {
    && GraphFacts(order, g)
    && built == level.Keys
    && remaining == Without(order, built)
    && LayeredSoFar(g, level)
    && GroupsByLevel(order, level, groups)
    && (remaining != [] ==> |groups| >= 1)
    && (forall k :: k in remaining ==> k in g && !DepsBelow(g, level, k, |groups| - 1))
  }

  /** The levels after a round that places `ready` at level `n`. */
  function NextLevel(level: map<string, nat>, ready: set<string>, n: nat): (r: map<string, nat>)
    ensures r.Keys == level.Keys + ready
    ensures forall k :: k in r ==> r[k] == if k in level then level[k] else n
  {
    map k | k in level.Keys + ready :: if k in level then level[k] else n
  }

  /** Levels below the new one keep their members; the new level holds the
      ready components, in order. */
  lemma {:induction false} MembersAfterRound(s: seq<string>, level: map<string, nat>, g: Edges,
                                             ready: set<string>, n: nat)
    requires forall k :: k in level ==> level[k] < n
    requires forall k :: k in s ==> (k in ready <==> k !in level && DepsBuilt(g, k, level.Keys))
    ensures Members(s, NextLevel(level, ready, n), n) == ReadyAmong(Without(s, level.Keys), g, level.Keys)
    ensures forall m :: 0 <= m < n ==> Members(s, NextLevel(level, ready, n), m) == Members(s, level, m)
    decreases |s|
  {
    if s != [] {
      MembersAfterRound(s[1..], level, g, ready, n);
      var w := Without(s[1..], level.Keys);
      var level' := NextLevel(level, ready, n);
      if s[0] !in level {
        assert Without(s, level.Keys) == [s[0]] + w;
        assert ReadyAmong([s[0]] + w, g, level.Keys) ==
          (if DepsBuilt(g, s[0], level.Keys) then [s[0]] else []) + ReadyAmong(w, g, level.Keys) by {
          assert ([s[0]] + w)[1..] == w;
        }
        assert (s[0] in level' && level'[s[0]] == n) <==> DepsBuilt(g, s[0], level.Keys);
      } else {
        assert Without(s, level.Keys) == w;
      }
    }
  }

  /** The roots found by the first loop start the rounds: with no cycle they
      exist whenever there is a component, and every other component waits on
      some dependency. */
  lemma RootsStart(order: seq<string>, g: Edges, root: seq<string>, level: map<string, nat>, remaining: seq<string>)
    requires GraphFacts(order, g)
    requires forall k :: k in level <==> k in g && g[k] == []
    requires forall k :: k in level ==> level[k] == 0
    requires root == Members(order, level, 0)
    requires remaining == Without(order, level.Keys)
    ensures RoundInvariant(order, g, level, level.Keys, remaining, if root == [] then [] else [root])
  {
    var groups := if root == [] then [] else [root];
    assert order != [] ==> root != [] by {
      if order != [] {
        assert order[0] in g.Keys;
        AcyclicHasReady(g, g.Keys);
        var a :| a in Ready(g, g.Keys);
        HeadIn(g[a]);
        assert a in level;
        assert a in root;
      }
    }
    assert GroupsByLevel(order, level, groups) by {
      GroupZero(order, level, root);
    }
    assert LayeredSoFar(g, level) by {
      forall k | k in level ensures DepsBelow(g, level, k, level[k]) {
        assert g[k] == [];
      }
    }
    assert forall k :: k in remaining ==> k in g && !DepsBelow(g, level, k, |groups| - 1) by {
      forall k | k in remaining
        ensures k in g && !DepsBelow(g, level, k, |groups| - 1)
      {
        assert g[k][0] in g[k];
      }
    }
  }

  /** A non-empty list holds its first element. */
  lemma HeadIn(xs: seq<string>)
    ensures xs != [] ==> xs[0] in xs
  {
  }

  lemma GroupZero(order: seq<string>, level: map<string, nat>, root: seq<string>)
    requires forall k :: k in level ==> level[k] == 0 && k in order
    requires root == Members(order, level, 0)
    ensures GroupsByLevel(order, level, if root == [] then [] else [root])
  {
    assert forall k :: k in level ==> k in root;
  }

  /** Placing, at a new level `n`, components whose dependencies are all
      placed but not all below `n - 1` keeps the grouping rule. */
  lemma LayeredAfterRound(g: Edges, level: map<string, nat>, ready: set<string>, n: nat)
    requires LayeredSoFar(g, level)
    requires n >= 1 && forall k :: k in level ==> level[k] < n
    requires forall k :: k in ready ==> k !in level && DepsBuilt(g, k, level.Keys) && !DepsBelow(g, level, k, n - 1)
    ensures LayeredSoFar(g, NextLevel(level, ready, n))
  {
    var level' := NextLevel(level, ready, n);
    forall k | k in ready
      ensures DepsBelow(g, level', k, n) && SomeDepAt(g, level', k, n - 1)
    {
      var d :| d in g[k] && !(d in level && level[d] < n - 1);
      assert d in level' && level'[d] == n - 1;
    }
    forall k | k in level
      ensures DepsBelow(g, level', k, level'[k])
      ensures level'[k] > 0 ==> SomeDepAt(g, level', k, level'[k] - 1)
    {
      if level[k] > 0 {
        var d :| d in g[k] && d in level && level[d] == level[k] - 1;
        assert d in level' && level'[d] == level'[k] - 1;
      }
    }
  }

  /** A component that could not be placed still waits on an unbuilt dependency. */
  lemma WaitingAfterRound(g: Edges, level: map<string, nat>, ready: set<string>, n: nat, k: string)
    requires forall x :: x in level ==> level[x] < n
    requires k in g && !DepsBuilt(g, k, level.Keys)
    ensures !DepsBelow(g, NextLevel(level, ready, n), k, n)
  {
    var d :| d in g[k] && d !in level;
  }

  /** The new group is the new level's members; earlier groups keep theirs. */
  lemma GroupsAfterRound(order: seq<string>, g: Edges, level: map<string, nat>,
                         remaining: seq<string>, groups: seq<seq<string>>, toBeBuilt: seq<string>)
    requires GroupsByLevel(order, level, groups)
    requires remaining == Without(order, level.Keys)
    requires toBeBuilt == ReadyAmong(remaining, g, level.Keys) && toBeBuilt != []
    ensures GroupsByLevel(order, NextLevel(level, set k | k in toBeBuilt, |groups|), groups + [toBeBuilt])
  {
    var n := |groups|;
    var ready := set k | k in toBeBuilt;
    var level' := NextLevel(level, ready, n);
    MembersAfterRound(order, level, g, ready, n);
    var groups' := groups + [toBeBuilt];
    forall m | 0 <= m < |groups'| ensures groups'[m] == Members(order, level', m) && groups'[m] != [] {
      if m < n {
        assert groups'[m] == groups[m];
      }
    }
  }

  /** Some waiting component has all its dependencies built, so a round
      places at least one component. */
  lemma RoundProgress(order: seq<string>, g: Edges, level: map<string, nat>, built: set<string>,
                      remaining: seq<string>, groups: seq<seq<string>>, toBeBuilt: seq<string>)
    requires RoundInvariant(order, g, level, built, remaining, groups)
    requires remaining != []
    requires toBeBuilt == ReadyAmong(remaining, g, built)
    ensures toBeBuilt != []
    ensures |Without(remaining, set k | k in toBeBuilt)| < |remaining|
  {
    var waiting := set k | k in remaining;
    assert waiting <= g.Keys;
    assert remaining[0] in waiting;
    AcyclicHasReady(g, waiting);
    var a :| a in Ready(g, waiting);
    assert DepsBuilt(g, a, built);
    assert a in toBeBuilt;
    WithoutShrinks(remaining, (set k | k in toBeBuilt), a);
  }

  /** One round keeps the loop's state. */
  lemma RoundStep(order: seq<string>, g: Edges, level: map<string, nat>, built: set<string>,
                  remaining: seq<string>, groups: seq<seq<string>>, toBeBuilt: seq<string>)
    requires RoundInvariant(order, g, level, built, remaining, groups)
    requires remaining != []
    requires toBeBuilt == ReadyAmong(remaining, g, built)
    ensures var ready := set k | k in toBeBuilt;
      RoundInvariant(order, g, NextLevel(level, ready, |groups|), built + ready,
                     Without(remaining, ready), groups + [toBeBuilt])
  {
    var ready := set k | k in toBeBuilt;
    RoundProgress(order, g, level, built, remaining, groups, toBeBuilt);
    RoundLevels(order, g, level, remaining, groups, toBeBuilt);
    WithoutTwice(order, built, ready);
  }

  /** The levels and groups after a round obey the grouping rule, and what
      still waits has a dependency that is not built. */
  lemma RoundLevels(order: seq<string>, g: Edges, level: map<string, nat>,
                    remaining: seq<string>, groups: seq<seq<string>>, toBeBuilt: seq<string>)
    requires LayeredSoFar(g, level) && GroupsByLevel(order, level, groups) && |groups| >= 1
    requires remaining == Without(order, level.Keys)
    requires forall k :: k in remaining ==> k in g && !DepsBelow(g, level, k, |groups| - 1)
    requires toBeBuilt == ReadyAmong(remaining, g, level.Keys) && toBeBuilt != []
    ensures var ready := set k | k in toBeBuilt;
      var level' := NextLevel(level, ready, |groups|);
      && LayeredSoFar(g, level')
      && GroupsByLevel(order, level', groups + [toBeBuilt])
      && forall k :: k in Without(remaining, ready) ==> k in g && !DepsBelow(g, level', k, |groups|)
  {
    var n := |groups|;
    var ready := set k | k in toBeBuilt;
    var level' := NextLevel(level, ready, n);
    GroupsAfterRound(order, g, level, remaining, groups, toBeBuilt);
    LayeredAfterRound(g, level, ready, n);
    forall k | k in Without(remaining, ready) ensures k in g && !DepsBelow(g, level', k, n) {
      WaitingAfterRound(g, level, ready, n, k);
    }
  }

  /** Removing two sets in turn is removing their union. */
  lemma {:induction false} WithoutTwice(s: seq<string>, x: set<string>, y: set<string>)
    ensures Without(Without(s, x), y) == Without(s, x + y)
    decreases |s|
  {
    if s != [] {
      WithoutTwice(s[1..], x, y);
      var w := Without(s[1..], x);
      if s[0] !in x {
        assert Without(s, x) == [s[0]] + w;
        assert ([s[0]] + w)[1..] == w;
      } else {
        assert Without(s, x) == w;
      }
    }
  }

  lemma {:induction false} ReadyAmongAppend(s: seq<string>, x: string, g: Edges, built: set<string>)
    ensures ReadyAmong(s + [x], g, built) == ReadyAmong(s, g, built) + (if DepsBuilt(g, x, built) then [x] else [])
    decreases |s|
  {
    if s != [] {
      assert (s + [x])[1..] == s[1..] + [x];
      ReadyAmongAppend(s[1..], x, g, built);
    }
  }

  /** Whether every resolved dependency of a component has been built (the
      innermost loop, which stops at the first one missing). */
  method AllDepsReady(deps: seq<string>, built: set<string>) returns (ready: bool)
    ensures ready <==> forall d :: d in deps ==> d in built
  {
    ready := true;
    for j := 0 to |deps|
      invariant ready <==> forall d :: d in deps[..j] ==> d in built
    {
      if deps[j] !in built {
        ready := false;
        break;
      }
      assert deps[..j + 1] == deps[..j] + [deps[j]];
    }
    assert deps[..|deps|] == deps;
  }

  /** The first loop of a round: the waiting components, in order, whose
      resolved dependencies have all been built. */
  method SelectReady(remaining: seq<string>, g: Edges, built: set<string>) returns (toBeBuilt: seq<string>)
    requires forall k :: k in remaining ==> k in g
    ensures toBeBuilt == ReadyAmong(remaining, g, built)
  {
    toBeBuilt := [];
    for i := 0 to |remaining|
      invariant toBeBuilt == ReadyAmong(remaining[..i], g, built)
    {
      var fullname := remaining[i];
      var ready := AllDepsReady(g[fullname], built);
      PrefixAppend(remaining, i);
      ReadyAmongAppend(remaining[..i], fullname, g, built);
      if ready {
        toBeBuilt := toBeBuilt + [fullname];
      }
    }
    assert remaining[..|remaining|] == remaining;
  }

  /** Component `k` is registered and has no `depends_on`. */
  predicate NoDependsOn(reg: Registry, k: string) {
    k in reg.comps && reg.comps[k].dependsOn == []
  }

  /** The elements of `s` that are in `x`, in order. */
  function Keep(s: seq<string>, x: set<string>): (r: seq<string>)
    decreases |s|
  {
    if s == [] then [] else (if s[0] in x then [s[0]] else []) + Keep(s[1..], x)
  }

  /** The first loop of `orderBuildsInGroups`: the components without
      `depends_on` form group 0, in registration order; the others wait. */
  method CollectRoots(reg: Registry) returns (root: seq<string>, remaining: seq<string>, built: set<string>)
    requires Valid(reg)
    ensures forall k :: k in built <==> NoDependsOn(reg, k)
    ensures root == Keep(reg.order, built)
    ensures remaining == Without(reg.order, built)
  {
    root, remaining, built := [], [], {};
    for i := 0 to |reg.order|
      invariant forall k :: k in built <==> k in reg.order[..i] && NoDependsOn(reg, k)
      invariant root == Keep(reg.order[..i], built)
      invariant remaining == Without(reg.order[..i], built)
    {
      var fullname := reg.order[i];
      PrefixAppend(reg.order, i);
      NotInPrefix(reg.order, i);
      var prefix := reg.order[..i];
      if reg.comps[fullname].dependsOn == [] {
        KeepStep(prefix, fullname, built);
        WithoutStep(prefix, fullname, built);
        root := root + [fullname];
        built := built + {fullname};
      } else {
        KeepStep(prefix, fullname, built);
        WithoutStep(prefix, fullname, built);
        remaining := remaining + [fullname];
      }
    }
    assert reg.order[..|reg.order|] == reg.order;
  }

  /** Appending an element not seen before, and maybe adding it to the set. */
  lemma {:induction false} KeepStep(s: seq<string>, x: string, built: set<string>)
    requires x !in s
    ensures Keep(s + [x], built + {x}) == Keep(s, built) + [x]
    ensures x !in built ==> Keep(s + [x], built) == Keep(s, built)
    decreases |s|
  {
    if s != [] {
      assert (s + [x])[1..] == s[1..] + [x];
      KeepStep(s[1..], x, built);
    }
  }

  /** The same for the elements left out. */
  lemma {:induction false} WithoutStep(s: seq<string>, x: string, built: set<string>)
    requires x !in s
    ensures Without(s + [x], built + {x}) == Without(s, built)
    ensures x !in built ==> Without(s + [x], built) == Without(s, built) + [x]
    decreases |s|
  {
    if s != [] {
      assert (s + [x])[1..] == s[1..] + [x];
      WithoutStep(s[1..], x, built);
    }
  }

  /** With every kept element at level 0, level 0's members are the kept ones. */
  lemma {:induction false} KeepIsLevelZero(s: seq<string>, built: set<string>, level: map<string, nat>)
    requires level.Keys == built && forall k :: k in level ==> level[k] == 0
    ensures Members(s, level, 0) == Keep(s, built)
    decreases |s|
  {
    if s != [] {
      KeepIsLevelZero(s[1..], built, level);
    }
  }

  /** `orderBuildsInGroups` on a map that passed validation, given the resolved
      dependency lists validation recorded. The ghost `level` is the group
      each component is placed in. */
  method OrderBuildsInGroups(reg: Registry, g: Edges) returns (groups: seq<seq<string>>, ghost level: map<string, nat>)
    requires Valid(reg)
    requires g == ResolvedEdges(reg)
    requires DependencyErrors(reg) == []
    ensures level.Keys == reg.comps.Keys
    ensures Layered(g, level)
    ensures forall k :: k in level ==> (level[k] == 0 <==> reg.comps[k].dependsOn == [])
    ensures GroupsByLevel(reg.order, level, groups)
    ensures BuildPlan(reg, g, groups)
  {
    var root, remaining, built := CollectRoots(reg);
    level := map k | k in built :: 0;
    groups := if root == [] then [] else [root];
    RoundsStart(reg, g, root, remaining, built, level);
    while remaining != []
      invariant RoundInvariant(reg.order, g, level, built, remaining, groups)
      decreases |remaining|
    {
      var toBeBuilt := SelectReady(remaining, g, built);
      RoundProgress(reg.order, g, level, built, remaining, groups, toBeBuilt);
      RoundStep(reg.order, g, level, built, remaining, groups, toBeBuilt);
      var ready := set k | k in toBeBuilt;
      level := NextLevel(level, ready, |groups|);
      groups := groups + [toBeBuilt];
      built := built + ready;
      remaining := Without(remaining, ready);
    }
    assert Layered(g, level) && forall k :: k in level ==> (level[k] == 0 <==> g[k] == []) by {
      RoundsDone(reg.order, g, level);
    }
    ValidatedGraph(reg, g);
    GroupsPlan(reg, g, level, groups);
  }

  /** What the groups themselves show: every component is in exactly one
      group, group 0 holds exactly the components without `depends_on`, and
      every dependency of a component is in an earlier group. */
  ghost predicate BuildPlan(reg: Registry, g: Edges, groups: seq<seq<string>>)
    requires Valid(reg)
  {
    && (forall k :: k in reg.comps ==> exists n :: 0 <= n < |groups| && k in groups[n])
    && (forall n, m, k :: 0 <= n < |groups| && 0 <= m < |groups| && k in groups[n] && k in groups[m] ==> n == m)
    && (groups != [] ==> forall k :: k in groups[0] <==> k in reg.comps && reg.comps[k].dependsOn == [])
    && (forall n, k, d :: 0 <= n < |groups| && k in groups[n] && k in g && d in g[k] ==> exists m :: 0 <= m < n && d in groups[m])
  }

  /** The layering the loop builds yields a sound build plan. */
  lemma GroupsPlan(reg: Registry, g: Edges, level: map<string, nat>, groups: seq<seq<string>>)
    requires Valid(reg) && g == ResolvedEdges(reg) && GraphFacts(reg.order, g)
    requires level.Keys == reg.comps.Keys && Layered(g, level) && GroupsByLevel(reg.order, level, groups)
    requires forall k :: k in level ==> (level[k] == 0 <==> reg.comps[k].dependsOn == [])
    ensures BuildPlan(reg, g, groups)
  {
    forall k | k in reg.comps
      ensures level[k] < |groups| && k in groups[level[k]]
      ensures forall n :: 0 <= n < |groups| && k in groups[n] ==> n == level[k]
    {
      EachInOneGroup(reg.order, g, level, groups, k);
    }
    forall n, k, d | 0 <= n < |groups| && k in groups[n] && k in g && d in g[k]
      ensures exists m :: 0 <= m < n && d in groups[m]
    {
      DependenciesBuildEarlier(reg.order, g, level, groups, n, k, d);
    }
  }

  /** The roots found by the first loop, all at level 0, start the rounds. */
  lemma RoundsStart(reg: Registry, g: Edges, root: seq<string>, remaining: seq<string>,
                    built: set<string>, level: map<string, nat>)
    requires Valid(reg) && g == ResolvedEdges(reg) && DependencyErrors(reg) == []
    requires forall k :: k in built <==> NoDependsOn(reg, k)
    requires root == Keep(reg.order, built)
    requires remaining == Without(reg.order, built)
    requires level == map k | k in built :: 0
    ensures RoundInvariant(reg.order, g, level, built, remaining, if root == [] then [] else [root])
  {
    assert level.Keys == built;
    assert GraphFacts(reg.order, g) && forall k :: k in level <==> k in g && g[k] == [] by {
      ValidatedGraph(reg, g);
    }
    assert root == Members(reg.order, level, 0) by {
      KeepIsLevelZero(reg.order, built, level);
    }
    RootsStart(reg.order, g, root, level, remaining);
  }

  /** Once nothing waits, every component is placed, by the layering rule, and
      exactly those without dependencies are at level 0. */
  lemma RoundsDone(order: seq<string>, g: Edges, level: map<string, nat>)
    requires forall k :: k in g <==> k in order
    requires LayeredSoFar(g, level) && Without(order, level.Keys) == []
    ensures Layered(g, level)
    ensures forall k :: k in level ==> (level[k] == 0 <==> g[k] == [])
  {
    forall k | k in g ensures k in level {
      assert k !in Without(order, level.Keys);
    }
    forall k | k in level ensures level[k] == 0 <==> g[k] == [] {
      LevelZeroExactly(g, level, k);
    }
  }

  lemma PrefixAppend(s: seq<string>, i: nat)
    requires i < |s|
    ensures s[..i + 1] == s[..i] + [s[i]]
  {
  }

  /** In a list without repetition an element does not occur before its position. */
  lemma NotInPrefix(s: seq<string>, i: nat)
    requires i < |s|
    requires forall a, b :: 0 <= a < b < |s| ==> s[a] != s[b]
    ensures s[i] !in s[..i]
  {
    assert forall j :: 0 <= j < i ==> s[..i][j] == s[j] != s[i];
  }

  // ---------------------------------------------------------------------------
  // What the grouping guarantees
  // ---------------------------------------------------------------------------

  /** Every dependency of a component in group `n` is in an earlier group. */
  lemma DependenciesBuildEarlier(order: seq<string>, g: Edges, level: map<string, nat>, groups: seq<seq<string>>,
                                 n: nat, k: string, d: string)
    requires GraphFacts(order, g) && Layered(g, level) && GroupsByLevel(order, level, groups)
    requires n < |groups| && k in groups[n] && d in g[k]
    ensures exists m :: 0 <= m < n && d in groups[m]
  {
    assert d in level && level[d] < n;
    assert d in groups[level[d]];
  }

  /** Every component is in exactly one group. */
  lemma EachInOneGroup(order: seq<string>, g: Edges, level: map<string, nat>, groups: seq<seq<string>>, k: string)
    requires GraphFacts(order, g) && Layered(g, level) && GroupsByLevel(order, level, groups)
    requires k in order
    ensures level[k] < |groups| && k in groups[level[k]]
    ensures forall n :: 0 <= n < |groups| && k in groups[n] ==> n == level[k]
  {
  }

  /** The grouping rule fixes the levels: two placements obeying it agree. */
  lemma {:induction false} LayeringUnique(g: Edges, l1: map<string, nat>, l2: map<string, nat>)
    requires Layered(g, l1) && Layered(g, l2)
    ensures l1 == l2
  {
    forall k | k in l1 ensures l2[k] == l1[k] {
      LayeringAgreesUpTo(g, l1, l2, l1[k], k);
    }
  }

  lemma {:induction false} LayeringAgreesUpTo(g: Edges, l1: map<string, nat>, l2: map<string, nat>, n: nat, k: string)
    requires Layered(g, l1) && Layered(g, l2)
    requires k in l1 && l1[k] == n
    ensures l2[k] == n
    decreases n
  {
    // every dependency sits below n in the first placement, so both agree on it
    forall d | d in g[k] ensures l2[d] == l1[d] {
      LayeringAgreesUpTo(g, l1, l2, l1[d], d);
    }
    if n > 0 {
      var e :| e in g[k] && e in l1 && l1[e] == n - 1;
      assert l2[k] > l2[e];
    }
    if l2[k] > 0 {
      var f :| f in g[k] && f in l2 && l2[f] == l2[k] - 1;
      assert l1[f] < n;
    }
  }
}
