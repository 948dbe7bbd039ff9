/** String-to-string dictionaries as the builder's JavaScript uses them for
    build arguments: plain objects, whose keys keep their insertion order and
    whose `Object.assign` overwrites existing keys in place and appends new ones. */
module ArgMaps {
  import opened Wrappers

  /** An object's own entries, in key order. */
  type ArgMap = seq<(string, string)>

  function Keys(m: ArgMap): (r: seq<string>)
    ensures |r| == |m| && forall i :: 0 <= i < |m| ==> r[i] == m[i].0
  {
    if m == [] then [] else [m[0].0] + Keys(m[1..])
  }

  /** A JavaScript object never holds a key twice. */
  predicate DistinctKeys(m: ArgMap) {
    forall i, j :: 0 <= i < j < |m| ==> m[i].0 != m[j].0
  }

  /** `m[k]`, or `None` for `undefined`. */
  function Lookup(m: ArgMap, k: string): (r: Option<string>)
    ensures r.None? <==> k !in Keys(m)
    ensures r.Some? ==> (k, r.value) in m
  {
    if m == [] then None
    else if m[0].0 == k then Some(m[0].1)
    else Lookup(m[1..], k)
  }

  /** `m[k] = v`: an existing key keeps its position, a new key goes last. */
  function Put(m: ArgMap, k: string, v: string): (r: ArgMap)
    ensures Keys(r) == if k in Keys(m) then Keys(m) else Keys(m) + [k]
    ensures DistinctKeys(m) ==> DistinctKeys(r)
  {
    if m == [] then [(k, v)]
    else if m[0].0 == k then
      var r := [(k, v)] + m[1..];
      assert r[1..] == m[1..];
      r
    else
      var r := [m[0]] + Put(m[1..], k, v);
      assert r[1..] == Put(m[1..], k, v);
      r
  }

  /** After `m[k] = v`, `k` reads `v` and every other key reads as before. */
  lemma {:induction false} PutLookup(m: ArgMap, k: string, v: string, k': string)
    ensures Lookup(Put(m, k, v), k') == if k' == k then Some(v) else Lookup(m, k')
    decreases |m|
  {
    if m != [] && m[0].0 != k {
      PutLookup(m[1..], k, v, k');
    }
  }

  /** The keys of `s`, in order, that `t` does not hold yet. */
  function NewKeys(t: seq<string>, s: seq<string>): seq<string>
    decreases |s|
  {
    if s == [] then []
    else if s[0] in t then NewKeys(t, s[1..])
    else [s[0]] + NewKeys(t + [s[0]], s[1..])
  }

  /** `Object.assign(t, s)`: every entry of `s`, in order, written into `t`. */
  function Assign(t: ArgMap, s: ArgMap): ArgMap
    decreases |s|
  {
    if s == [] then t else Assign(Put(t, s[0].0, s[0].1), s[1..])
  }

  /** The keys of a non-empty map are its first key and the keys of the rest. */
  lemma KeysCons(s: ArgMap)
    requires s != []
    ensures Keys(s) == [s[0].0] + Keys(s[1..])
  {
  }

  /** After `Object.assign(t, s)` a key reads its value from `s` when `s` has it,
      and from `t` otherwise. */
  lemma {:induction false} AssignLookup(t: ArgMap, s: ArgMap, k: string)
    requires DistinctKeys(s)
    ensures Lookup(Assign(t, s), k) == if k in Keys(s) then Lookup(s, k) else Lookup(t, k)
    decreases |s|
  {
    if s != [] {
      var t' := Put(t, s[0].0, s[0].1);
      PutLookup(t, s[0].0, s[0].1, k);
      assert DistinctKeys(s[1..]);
      AssignLookup(t', s[1..], k);
      KeysCons(s);
      if k == s[0].0 {
        assert k !in Keys(s[1..]) by {
          forall i | 0 <= i < |s[1..]| ensures Keys(s[1..])[i] != k {
            assert s[1..][i] == s[i + 1];
          }
        }
      }
    }
  }

  /** `Object.assign` keeps the keys of `t` in place and appends the new keys
      of `s` in their order; it keeps the keys distinct. */
  lemma {:induction false} AssignKeys(t: ArgMap, s: ArgMap)
    ensures Keys(Assign(t, s)) == Keys(t) + NewKeys(Keys(t), Keys(s))
    ensures DistinctKeys(t) ==> DistinctKeys(Assign(t, s))
    decreases |s|
  {
    if s != [] {
      var t' := Put(t, s[0].0, s[0].1);
      AssignKeys(t', s[1..]);
      KeysCons(s);
      assert Keys(s)[1..] == Keys(s[1..]);
    }
  }

  /** Assigning into an empty object copies the entries. */
  lemma {:induction false} AssignIntoEmpty(s: ArgMap)
    requires DistinctKeys(s)
    ensures forall k :: Lookup(Assign([], s), k) == Lookup(s, k)
  {
    forall k ensures Lookup(Assign([], s), k) == Lookup(s, k) {
      AssignLookup([], s, k);
    }
  }
}
