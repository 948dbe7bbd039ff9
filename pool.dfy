/** Builder selection from a configured builder pool
    (lib/node/builder/builder.ts:141-158). The index of the last builder used
    is module state (`lastUsedBuilderIndex`, 23), shared by every build of a
    run and starting at -1; the model keeps it in a `Selector` object. */
module Pool {
  import opened Wrappers
  import opened Config

  /** `config.docker.task_assign.type === 'builder-pool'` with a non-empty pool. */
  predicate PoolActive(cfg: BuilderConfig) {
    cfg.taskAssign.kind == Some("builder-pool") && StringArray(cfg.taskAssign.builderPool) != []
  }

  /** `++lastUsedBuilderIndex; lastUsedBuilderIndex %= pool.length` */
  function Advance(i: int, n: nat): (r: nat)
    requires n > 0 && i >= -1
    ensures r < n
  {
    (i + 1) % n
  }

  /** The index after `k` round-robin picks from `i`. */
  function AdvanceN(i: int, n: nat, k: nat): (r: int)
    requires n > 0 && i >= -1
    ensures r >= -1
  {
    if k == 0 then i else Advance(AdvanceN(i, n, k - 1), n)
  }

  lemma ModSucc(m: nat, n: nat)
    requires n > 0
    ensures (m % n + 1) % n == (m + 1) % n
  {
    var q, r := m / n, m % n;
    if r + 1 < n {
      ModOf(m + 1, q, r + 1, n);
      ModOf(r + 1, 0, r + 1, n);
    } else {
      assert m + 1 == (q + 1) * n;
      ModOf(m + 1, q + 1, 0, n);
      ModOf(r + 1, 1, 0, n);
    }
  }

  /** The remainder is the unique `r` with `a == q * n + r` and `0 <= r < n`. */
  lemma ModOf(a: int, q: int, r: int, n: int)
    requires n > 0 && 0 <= r < n && a == q * n + r
    ensures a % n == r
  {
    var q', r' := a / n, a % n;
    assert a == q' * n + r';
    assert q * n - q' * n == (q - q') * n && q' * n - q * n == (q' - q) * n;
    if q > q' {
      MulAtLeast(q - q', n);
    } else if q < q' {
      MulAtLeast(q' - q, n);
    }
  }

  lemma {:induction false} MulAtLeast(d: int, n: int)
    requires d >= 1 && n > 0
    ensures d * n >= n
    decreases d
  {
    if d > 1 {
      MulAtLeast(d - 1, n);
      assert d * n == (d - 1) * n + n;
    }
  }

  /** Round robin from a fresh start: pick number `k` (counting from 0) uses
      builder `k % n`, so each run of `n` consecutive picks uses every builder
      of the pool once. */
  lemma {:induction false} RoundRobinFromStart(n: nat, k: nat)
    requires n > 0
    ensures AdvanceN(-1, n, k + 1) == k % n
  {
    if k > 0 {
      RoundRobinFromStart(n, k - 1);
      ModSucc(k - 1, n);
    }
  }

  /** The `--builder` option: present only for a non-empty builder name. */
  function BuilderArgs(chosen: string): (r: seq<string>)
    ensures r != [] <==> chosen != ""
    ensures r != [] ==> r == ["--builder", chosen]
  {
    if chosen != "" then ["--builder", chosen] else []
  }

  class Selector {
    /** `lastUsedBuilderIndex` */
    var lastUsed: int

    ghost predicate Valid()
      reads this
    {
      lastUsed >= -1
    }

    constructor ()
      ensures Valid() && lastUsed == -1
    {
      lastUsed := -1;
    }

    /** The builder chosen for one build: the next in turn for the round-robin
        strategy, the drawn one (`Math.floor(Math.random() * pool.length)`,
        given as `draw`) for the random strategy, none otherwise. */
    method Choose(cfg: BuilderConfig, draw: nat) returns (chosen: string)
      requires Valid()
      requires PoolActive(cfg) ==> draw < |StringArray(cfg.taskAssign.builderPool)|
      modifies this
      ensures Valid()
      ensures var pool := StringArray(cfg.taskAssign.builderPool);
        if PoolActive(cfg) && cfg.taskAssign.strategy == Some("roundrobin") then
          lastUsed == Advance(old(lastUsed), |pool|) && chosen == pool[lastUsed]
        else if PoolActive(cfg) && cfg.taskAssign.strategy == Some("random") then
          lastUsed == draw && chosen == pool[draw]
        else
          lastUsed == old(lastUsed) && chosen == ""
    {
      chosen := "";
      if PoolActive(cfg) {
        var pool := StringArray(cfg.taskAssign.builderPool);
        if cfg.taskAssign.strategy == Some("roundrobin") {
          lastUsed := lastUsed + 1;
          lastUsed := lastUsed % |pool|;
          chosen := pool[lastUsed];
        } else if cfg.taskAssign.strategy == Some("random") {
          lastUsed := draw;
          chosen := pool[lastUsed];
        }
      }
    }
  }

  /** `k` builds of a run with the round-robin strategy, the selector fresh:
      build number `i` (counting from 0) runs on builder `i % n` of the pool. */
  method RoundRobinRun(cfg: BuilderConfig, k: nat) returns (chosen: seq<string>)
    requires PoolActive(cfg) && cfg.taskAssign.strategy == Some("roundrobin")
    ensures var pool := StringArray(cfg.taskAssign.builderPool);
      |chosen| == k && forall i :: 0 <= i < k ==> chosen[i] == pool[i % |pool|]
  {
    var pool := StringArray(cfg.taskAssign.builderPool);
    var sel := new Selector();
    chosen := [];
    while |chosen| < k
      invariant sel.Valid() && |chosen| <= k
      invariant sel.lastUsed == AdvanceN(-1, |pool|, |chosen|)
      invariant forall i :: 0 <= i < |chosen| ==> chosen[i] == pool[i % |pool|]
    {
      var b := sel.Choose(cfg, 0);
      RoundRobinFromStart(|pool|, |chosen|);
      chosen := chosen + [b];
    }
  }
}
