/** The group driver (`buildAllGroups`, lib/node/builder/builder.ts:58-105):
    the build groups run strictly in order; every component of a group is
    prepared, then every component of the group is built, and the run ends at
    the first phase that leaves errors. What one component's preparation or
    build adds to the shared error list is the parameter `prep` or `build`
    (the preparation of `Prep.BuildPrep`, the failure of `Process.Supervise`).
    Within a group the model runs the components one after another. */
module Driver {
  import opened Wrappers

  /** What the driver started, in order. */
  datatype Action<C> = Prepare(c: C) | Build(c: C)

  /** The driver's observable result: what it started and the errors it returns. */
  datatype Report<C, E> = Report(trace: seq<Action<C>>, errors: seq<E>)

  /** The errors the components of `cs` add, in order. */
  function Concat<C, E>(cs: seq<C>, f: C -> seq<E>): seq<E>
    decreases |cs|
  {
    if cs == [] then [] else Concat(cs[..|cs| - 1], f) + f(cs[|cs| - 1])
  }

  /** No component of `cs` adds an error. */
  predicate Clean<C, E>(cs: seq<C>, f: C -> seq<E>) {
    forall i :: 0 <= i < |cs| ==> f(cs[i]) == []
  }

  lemma {:induction false} ConcatEmpty<C, E>(cs: seq<C>, f: C -> seq<E>)
    ensures Concat(cs, f) == [] <==> Clean(cs, f)
    decreases |cs|
  {
    if cs != [] {
      var init := cs[..|cs| - 1];
      ConcatEmpty(init, f);
      assert forall i :: 0 <= i < |init| ==> init[i] == cs[i];
    }
  }

  function Prepares<C>(cs: seq<C>): (r: seq<Action<C>>)
    ensures |r| == |cs| && forall i :: 0 <= i < |cs| ==> r[i] == Prepare(cs[i])
  {
    seq(|cs|, i requires 0 <= i < |cs| => Prepare(cs[i]))
  }

  function Builds<C>(cs: seq<C>): (r: seq<Action<C>>)
    ensures |r| == |cs| && forall i :: 0 <= i < |cs| ==> r[i] == Build(cs[i])
  {
    seq(|cs|, i requires 0 <= i < |cs| => Build(cs[i]))
  }

  /** The run over `groups`. */
  function Drive<C, E>(groups: seq<seq<C>>, prep: C -> seq<E>, build: C -> seq<E>): Report<C, E>
    decreases |groups|
  {
    if groups == [] then Report([], [])
    else
      var g := groups[0];
      var prepErrors := Concat(g, prep);
      if prepErrors != [] then Report(Prepares(g), prepErrors)
      else
        var buildErrors := Concat(g, build);
        if buildErrors != [] then Report(Prepares(g) + Builds(g), buildErrors)
        else
          var rest := Drive(groups[1..], prep, build);
          Report(Prepares(g) + Builds(g) + rest.trace, rest.errors)
  }

  /** Every group prepared and built, in order. */
  function AllActions<C>(groups: seq<seq<C>>): seq<Action<C>>
    decreases |groups|
  {
    if groups == [] then [] else Prepares(groups[0]) + Builds(groups[0]) + AllActions(groups[1..])
  }

  /** Every component of every group is clean in both phases. */
  predicate AllClean<C, E>(groups: seq<seq<C>>, prep: C -> seq<E>, build: C -> seq<E>) {
    forall g :: 0 <= g < |groups| ==> Clean(groups[g], prep) && Clean(groups[g], build)
  }

  /** The run returns no error (`null`) exactly when no component of any
      group adds one, and it has then prepared and built every group in order. */
  lemma {:induction false} SuccessExactly<C, E>(groups: seq<seq<C>>, prep: C -> seq<E>, build: C -> seq<E>)
    ensures Drive(groups, prep, build).errors == [] <==> AllClean(groups, prep, build)
    ensures Drive(groups, prep, build).errors == [] ==> Drive(groups, prep, build).trace == AllActions(groups)
    decreases |groups|
  {
    if groups != [] {
      var g := groups[0];
      ConcatEmpty(g, prep);
      ConcatEmpty(g, build);
      SuccessExactly(groups[1..], prep, build);
      assert forall h :: 0 < h < |groups| ==> groups[h] == groups[1..][h - 1];
      if AllClean(groups, prep, build) {
        assert Clean(groups[0], prep) && Clean(groups[0], build);
        assert AllClean(groups[1..], prep, build);
      }
    }
  }

  /** A failed run stops in the first group `k` with an error: the groups
      before it were prepared and built without error, group `k` was
      prepared, it was built only if its preparation was clean, and no later
      group was touched. The errors returned are that phase's. */
  lemma {:induction false} StopsAtFirstFailure<C, E>(groups: seq<seq<C>>, prep: C -> seq<E>, build: C -> seq<E>)
    requires Drive(groups, prep, build).errors != []
    ensures exists k :: 0 <= k < |groups| && FailsAt(groups, prep, build, k)
    decreases |groups|
  {
    var g := groups[0];
    assert groups[..0] == [];
    if Concat(g, prep) != [] {
      ConcatEmpty(g, prep);
      assert FailsAt(groups, prep, build, 0);
    } else if Concat(g, build) != [] {
      ConcatEmpty(g, prep);
      assert FailsAt(groups, prep, build, 0);
    } else {
      ConcatEmpty(g, prep);
      ConcatEmpty(g, build);
      StopsAtFirstFailure(groups[1..], prep, build);
      var k :| 0 <= k < |groups| - 1 && FailsAt(groups[1..], prep, build, k);
      DriveHead(groups, prep, build);
      StoppedShift(groups, prep, build, k, Drive(groups[1..], prep, build));
      assert FailsAt(groups, prep, build, k + 1);
    }
  }

  /** The shape of a run that fails in group `k`. */
  ghost predicate FailsAt<C, E>(groups: seq<seq<C>>, prep: C -> seq<E>, build: C -> seq<E>, k: nat)
    requires k < |groups|
  {
    Stopped(groups, prep, build, k, Drive(groups, prep, build))
  }

  /** `r` is the report of a run that stops in group `k`. */
  ghost predicate Stopped<C, E>(groups: seq<seq<C>>, prep: C -> seq<E>, build: C -> seq<E>, k: nat, r: Report<C, E>)
    requires k < |groups|
  {
    var gk := groups[k];
    && AllClean(groups[..k], prep, build)
    && if !Clean(gk, prep) then
         r.errors == Concat(gk, prep) && r.trace == AllActions(groups[..k]) + Prepares(gk)
       else
         r.errors == Concat(gk, build) && r.trace == AllActions(groups[..k]) + Prepares(gk) + Builds(gk)
  }

  /** The first group of a run, by its outcome. */
  lemma DriveHead<C, E>(groups: seq<seq<C>>, prep: C -> seq<E>, build: C -> seq<E>)
    requires groups != []
    ensures var g, r := groups[0], Drive(groups, prep, build);
      && (Concat(g, prep) != [] ==> r == Report(Prepares(g), Concat(g, prep)))
      && (Concat(g, prep) == [] && Concat(g, build) != [] ==> r == Report(Prepares(g) + Builds(g), Concat(g, build)))
      && (Concat(g, prep) == [] && Concat(g, build) == [] ==>
            r == Report(Prepares(g) + Builds(g) + Drive(groups[1..], prep, build).trace, Drive(groups[1..], prep, build).errors))
  {
  }

  lemma PrefixCons<C>(groups: seq<seq<C>>, k: nat)
    requires k < |groups|
    ensures groups[..k + 1][0] == groups[0] && groups[..k + 1][1..] == groups[1..][..k]
  {
  }

  lemma AllCleanCons<C, E>(groups: seq<seq<C>>, prep: C -> seq<E>, build: C -> seq<E>)
    requires groups != []
    requires Clean(groups[0], prep) && Clean(groups[0], build) && AllClean(groups[1..], prep, build)
    ensures AllClean(groups, prep, build)
  {
    forall h | 0 < h < |groups|
      ensures Clean(groups[h], prep) && Clean(groups[h], build)
    {
      assert groups[h] == groups[1..][h - 1];
    }
  }

  lemma StoppedShift<C, E>(groups: seq<seq<C>>, prep: C -> seq<E>, build: C -> seq<E>, k: nat, r: Report<C, E>)
    requires |groups| > 1 && k < |groups| - 1
    requires Clean(groups[0], prep) && Clean(groups[0], build)
    requires Stopped(groups[1..], prep, build, k, r)
    ensures Stopped(groups, prep, build, k + 1, Report(Prepares(groups[0]) + Builds(groups[0]) + r.trace, r.errors))
  {
    var rest, pre := groups[1..], groups[..k + 1];
    var head := Prepares(groups[0]) + Builds(groups[0]);
    PrefixCons(groups, k);
    assert groups[k + 1] == rest[k];
    AllCleanCons(pre, prep, build);
    assert AllActions(pre) == head + AllActions(rest[..k]);
    if !Clean(rest[k], prep) {
      assert head + r.trace == head + (AllActions(rest[..k]) + Prepares(rest[k]));
    } else {
      assert head + r.trace == head + (AllActions(rest[..k]) + Prepares(rest[k]) + Builds(rest[k]));
    }
  }

  /** The errors of one phase of one group: each component adds to the list. */
  method Settle<C, E>(errors: seq<E>, group: seq<C>, f: C -> seq<E>) returns (errors': seq<E>)
    ensures errors' == errors + Concat(group, f)
  {
    errors' := errors;
    var i := 0;
    while i < |group|
      invariant 0 <= i <= |group|
      invariant errors' == errors + Concat(group[..i], f)
    {
      assert group[..i + 1][..i] == group[..i];
      errors' := errors' + f(group[i]);
      i := i + 1;
    }
    assert group[..i] == group;
  }

  /** One group: prepare every component, and build them all only if the
      preparation left no error. */
  method RunGroup<C, E>(group: seq<C>, prep: C -> seq<E>, build: C -> seq<E>)
    returns (errors: seq<E>, actions: seq<Action<C>>)
    ensures Concat(group, prep) != [] ==> errors == Concat(group, prep) && actions == Prepares(group)
    ensures Concat(group, prep) == [] ==> errors == Concat(group, build) && actions == Prepares(group) + Builds(group)
  {
    errors := Settle([], group, prep);
    actions := Prepares(group);
    if errors != [] {
      return;
    }
    errors := Settle(errors, group, build);
    actions := actions + Builds(group);
  }

  /** `buildAllGroups`: `None` for `null`, else the errors; `trace` is what it started. */
  method BuildAllGroups<C, E>(groups: seq<seq<C>>, prep: C -> seq<E>, build: C -> seq<E>)
    returns (result: Option<seq<E>>, trace: seq<Action<C>>)
    ensures trace == Drive(groups, prep, build).trace
    ensures result == if Drive(groups, prep, build).errors == [] then None else Some(Drive(groups, prep, build).errors)
  {
    trace := [];
    var i := 0;
    while i < |groups|
      invariant 0 <= i <= |groups|
      invariant Drive(groups, prep, build).trace == trace + Drive(groups[i..], prep, build).trace
      invariant Drive(groups, prep, build).errors == Drive(groups[i..], prep, build).errors
    {
      ghost var before, next := trace, Drive(groups[i + 1..], prep, build);
      assert groups[i..][0] == groups[i] && groups[i..][1..] == groups[i + 1..];
      DriveHead(groups[i..], prep, build);
      var errors, actions := RunGroup(groups[i], prep, build);
      trace := trace + actions;
      if errors != [] {
        return Some(errors), trace;
      }
      assert before + (actions + next.trace) == trace + next.trace;
      i := i + 1;
    }
    assert groups[i..] == [];
    return None, trace;
  }
}
