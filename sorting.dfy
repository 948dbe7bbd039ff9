/** `uniqueStringArray` (lib/node/builder/builder.ts:999-1005) and the
    ascending sort the hash computation applies to its file list (772). Strings
    are ordered by their characters, first difference deciding, a proper
    prefix first. */
module Sorting {

  /** `a` sorts no later than `b`. */
  predicate LessEq(a: string, b: string)
    decreases |a|
  {
    a == [] || (b != [] && (a[0] < b[0] || (a[0] == b[0] && LessEq(a[1..], b[1..]))))
  }

  lemma {:induction false} LessEqReflexive(a: string)
    ensures LessEq(a, a)
    decreases |a|
  {
    if a != [] {
      LessEqReflexive(a[1..]);
    }
  }

  lemma {:induction false} LessEqTotal(a: string, b: string)
    ensures LessEq(a, b) || LessEq(b, a)
    decreases |a|
  {
    if a != [] && b != [] && a[0] == b[0] {
      LessEqTotal(a[1..], b[1..]);
    }
  }

  lemma {:induction false} LessEqAntisymmetric(a: string, b: string)
    requires LessEq(a, b) && LessEq(b, a)
    ensures a == b
    decreases |a|
  {
    if a != [] {
      LessEqAntisymmetric(a[1..], b[1..]);
      assert a == [a[0]] + a[1..] && b == [b[0]] + b[1..];
    }
  }

  lemma {:induction false} LessEqTransitive(a: string, b: string, c: string)
    requires LessEq(a, b) && LessEq(b, c)
    ensures LessEq(a, c)
    decreases |a|
  {
    if a != [] && a[0] == b[0] && b[0] == c[0] {
      LessEqTransitive(a[1..], b[1..], c[1..]);
    }
  }

  predicate Sorted(s: seq<string>) {
    forall i, j :: 0 <= i < j < |s| ==> LessEq(s[i], s[j])
  }

  predicate Distinct(s: seq<string>) {
    forall i, j :: 0 <= i < j < |s| ==> s[i] != s[j]
  }

  /** `x` placed into the list `s` before the first element above it. */
  function Insert(x: string, s: seq<string>): seq<string> {
    if s == [] then [x]
    else if LessEq(x, s[0]) then [x] + s
    else [s[0]] + Insert(x, s[1..])
  }

  lemma {:induction false} InsertMultiset(x: string, s: seq<string>)
    ensures multiset(Insert(x, s)) == multiset(s) + multiset{x}
    decreases |s|
  {
    if s != [] && !LessEq(x, s[0]) {
      InsertMultiset(x, s[1..]);
      assert s == [s[0]] + s[1..];
    }
  }

  lemma {:induction false} InsertSorted(x: string, s: seq<string>)
    requires Sorted(s)
    ensures Sorted(Insert(x, s))
    decreases |s|
  {
    if s != [] {
      var r := Insert(x, s);
      if LessEq(x, s[0]) {
        forall j | 0 < j < |r| ensures LessEq(x, r[j]) {
          if j > 1 {
            LessEqTransitive(x, s[0], s[j - 1]);
          }
        }
      } else {
        var t := Insert(x, s[1..]);
        InsertSorted(x, s[1..]);
        LessEqTotal(x, s[0]);
        forall y | y in s[1..] ensures LessEq(s[0], y) {
          var i :| 0 <= i < |s[1..]| && s[1..][i] == y;
          assert s[i + 1] == y;
        }
        InsertAbove(s[0], x, s[1..]);
        SortedCons(s[0], t);
      }
    }
  }

  /** A lower bound of `x` and of `s` bounds the list `x` is inserted into. */
  lemma InsertAbove(b: string, x: string, s: seq<string>)
    requires LessEq(b, x) && forall y :: y in s ==> LessEq(b, y)
    ensures forall y :: y in Insert(x, s) ==> LessEq(b, y)
  {
    InsertMultiset(x, s);
    forall y | y in Insert(x, s) ensures LessEq(b, y) {
      assert y in multiset(Insert(x, s));
      assert y == x || y in multiset(s);
    }
  }

  lemma SortedCons(a: string, t: seq<string>)
    requires Sorted(t) && forall y :: y in t ==> LessEq(a, y)
    ensures Sorted([a] + t)
  {
    var r := [a] + t;
    forall i, j | 0 <= i < j < |r| ensures LessEq(r[i], r[j]) {
      assert r[j] == t[j - 1];
      if i > 0 {
        assert r[i] == t[i - 1];
      }
    }
  }

  lemma {:induction false} InsertDistinct(x: string, s: seq<string>)
    requires Distinct(s) && x !in s
    ensures Distinct(Insert(x, s))
    decreases |s|
  {
    if s != [] && !LessEq(x, s[0]) {
      var t := Insert(x, s[1..]);
      InsertDistinct(x, s[1..]);
      InsertMultiset(x, s[1..]);
      forall j | 0 <= j < |t| ensures t[j] != s[0] {
        assert t[j] in multiset(t);
        assert s[0] != x && s[0] !in s[1..];
      }
    }
  }

  /** The sort: each element inserted in turn. */
  function Sort(s: seq<string>): seq<string> {
    if s == [] then [] else Insert(s[0], Sort(s[1..]))
  }

  /** The sort permutes its input into ascending order, and keeps a list
      without repetition so. */
  lemma {:induction false} SortFacts(s: seq<string>)
    ensures multiset(Sort(s)) == multiset(s)
    ensures Sorted(Sort(s))
    ensures Distinct(s) ==> Distinct(Sort(s))
    decreases |s|
  {
    if s != [] {
      assert s == [s[0]] + s[1..];
      var t := Sort(s[1..]);
      SortFacts(s[1..]);
      InsertFacts(s[0], t);
      InsertMultiset(s[0], t);
      DistinctCons(s);
      assert s[0] !in s[1..] ==> s[0] !in multiset(t);
    }
  }

  lemma DistinctCons(s: seq<string>)
    requires s != []
    ensures Distinct(s) ==> Distinct(s[1..]) && s[0] !in s[1..]
  {
    if Distinct(s) {
      forall i, j | 0 <= i < j < |s[1..]| ensures s[1..][i] != s[1..][j] {
        assert s[1..][i] == s[i + 1] && s[1..][j] == s[j + 1];
      }
    }
  }

  lemma InsertFacts(x: string, s: seq<string>)
    requires Sorted(s)
    ensures Sorted(Insert(x, s))
    ensures Distinct(s) && x !in multiset(s) ==> Distinct(Insert(x, s))
  {
    InsertSorted(x, s);
    if Distinct(s) && x !in multiset(s) {
      InsertDistinct(x, s);
    }
  }

  /** `[...new Set(xs)]`: the first occurrence of every element, in order. */
  function Unique(xs: seq<string>): seq<string>
    decreases |xs|
  {
    if xs == [] then []
    else
      var init := Unique(xs[..|xs| - 1]);
      if xs[|xs| - 1] in init then init else init + [xs[|xs| - 1]]
  }

  /** Every element once. */
  lemma {:induction false} UniqueFacts(xs: seq<string>)
    ensures forall x :: x in Unique(xs) <==> x in xs
    ensures Distinct(Unique(xs))
    decreases |xs|
  {
    if xs != [] {
      UniqueFacts(xs[..|xs| - 1]);
      assert xs == xs[..|xs| - 1] + [xs[|xs| - 1]];
    }
  }

  /** The position of the first occurrence of `x` in `xs`. */
  function FirstAt(xs: seq<string>, x: string): (r: nat)
    requires x in xs
    ensures r < |xs| && xs[r] == x
    ensures forall k :: 0 <= k < r ==> xs[k] != x
  {
    if xs[0] == x then 0 else 1 + FirstAt(xs[1..], x)
  }

  /** The first occurrence is the only position with no earlier occurrence. */
  lemma FirstAtUnique(xs: seq<string>, x: string, r: nat)
    requires r < |xs| && xs[r] == x && forall k :: 0 <= k < r ==> xs[k] != x
    ensures FirstAt(xs, x) == r
  {
  }

  /** A prefix holding `x` has its first occurrence where the whole list does. */
  lemma FirstAtPrefix(xs: seq<string>, n: nat, x: string)
    requires n <= |xs| && x in xs[..n]
    ensures FirstAt(xs, x) == FirstAt(xs[..n], x)
  {
    var r := FirstAt(xs[..n], x);
    FirstAtUnique(xs, x, r);
  }

  /** `uniqueStringArray` keeps the first occurrences in their order: of two
      elements of the result, the earlier one occurs first in the input. */
  lemma {:induction false} UniqueOrder(xs: seq<string>)
    ensures forall x :: x in Unique(xs) ==> x in xs
    ensures forall i, j :: 0 <= i < j < |Unique(xs)| ==> FirstAt(xs, Unique(xs)[i]) < FirstAt(xs, Unique(xs)[j])
    decreases |xs|
  {
    if xs != [] {
      var n := |xs| - 1;
      var init := xs[..n];
      var u := Unique(xs);
      UniqueFacts(xs);
      UniqueFacts(init);
      UniqueOrder(init);
      forall x | x in Unique(init) ensures FirstAt(xs, x) == FirstAt(init, x) && FirstAt(xs, x) < n {
        FirstAtPrefix(xs, n, x);
      }
      if xs[n] !in Unique(init) {
        assert xs[n] !in init;
        FirstAtUnique(xs, xs[n], n);
      }
      forall i, j | 0 <= i < j < |u| ensures FirstAt(xs, u[i]) < FirstAt(xs, u[j]) {
        assert u[i] in Unique(init);
        if j < |Unique(init)| {
          assert u[j] in Unique(init);
        }
      }
    }
  }

  /** The file list the hash is computed over: every file once, ascending. */
  function SortedUnique(xs: seq<string>): seq<string> {
    Sort(Unique(xs))
  }

  /** The sorted list holds every element once. */
  lemma SortedUniqueFacts(xs: seq<string>)
    ensures forall x :: x in SortedUnique(xs) <==> x in xs
    ensures Sorted(SortedUnique(xs)) && Distinct(SortedUnique(xs))
  {
    var u := Unique(xs);
    var r := Sort(u);
    UniqueFacts(xs);
    SortFacts(u);
    forall x ensures x in r <==> x in xs {
      assert x in r <==> x in multiset(r);
      assert x in u <==> x in multiset(u);
    }
  }

  /** Two ascending lists without repetition that hold the same strings are equal. */
  lemma {:induction false} SortedSetsEqual(s: seq<string>, t: seq<string>)
    requires Sorted(s) && Distinct(s) && Sorted(t) && Distinct(t)
    requires forall x :: x in s <==> x in t
    ensures s == t
    decreases |s|
  {
    assert s != [] ==> s[0] in t;
    assert t != [] ==> t[0] in s;
    if s != [] && t != [] {
      assert LessEq(t[0], s[0]) by {
        assert s[0] in t;
        var i :| 0 <= i < |t| && t[i] == s[0];
        LessEqReflexive(t[0]);
        if i > 0 { assert LessEq(t[0], t[i]); }
      }
      assert LessEq(s[0], t[0]) by {
        assert t[0] in s;
        var i :| 0 <= i < |s| && s[i] == t[0];
        LessEqReflexive(s[0]);
        if i > 0 { assert LessEq(s[0], s[i]); }
      }
      LessEqAntisymmetric(s[0], t[0]);
      forall x ensures x in s[1..] <==> x in t[1..] {
        assert x in s <==> x == s[0] || x in s[1..] by { assert s == [s[0]] + s[1..]; }
        assert x in t <==> x == t[0] || x in t[1..] by { assert t == [t[0]] + t[1..]; }
      }
      SortedSetsEqual(s[1..], t[1..]);
      assert s == [s[0]] + s[1..] && t == [t[0]] + t[1..];
    }
  }

  /** The hashed file list depends only on which files were found, not on the
      order or the repetitions in which they were enumerated. */
  lemma SortedUniqueOrderFree(xs: seq<string>, ys: seq<string>)
    requires forall x :: x in xs <==> x in ys
    ensures SortedUnique(xs) == SortedUnique(ys)
  {
    SortedUniqueFacts(xs);
    SortedUniqueFacts(ys);
    SortedSetsEqual(SortedUnique(xs), SortedUnique(ys));
  }
}
