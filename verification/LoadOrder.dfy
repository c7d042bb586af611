/** The load order of the ns-3 libraries (bindings/python/ns__init__.py): libraries are placed in
    layers, each holding the pending libraries whose dependencies are all in earlier layers.

    The reference is the set of dependency chains: `LongestChain(deps, m)` is k when some chain of k
    dependencies starts at `m` and none is longer. */
module LoadOrder {
  import opened Common

  datatype Module = Module(fileName: string)
  type Dependencies = map<Module, seq<Module>>

  // ---------------------------------------------------------------------------------------------
  // Chains

  /** Each module of a chain but the last is a key whose dependencies name the next one. */
  predicate Chain(deps: Dependencies, c: seq<Module>) {
    c != [] && forall i :: 0 <= i < |c| - 1 ==> Linked(deps, c, i)
  }

  /** The module at `i` depends on the next one. */
  predicate Linked(deps: Dependencies, c: seq<Module>, i: nat)
    requires i < |c| - 1
  {
    c[i] in deps && c[i + 1] in deps[c[i]]
  }

  predicate ChainFrom(deps: Dependencies, m: Module, c: seq<Module>) {
    Chain(deps, c) && c[0] == m
  }

  /** The longest chain from `m` has `k` dependencies. */
  ghost predicate LongestChain(deps: Dependencies, m: Module, k: nat) {
    && (exists c :: ChainFrom(deps, m, c) && |c| == k + 1)
    && (forall c :: ChainFrom(deps, m, c) ==> |c| <= k + 1)
  }

  ghost predicate Cyclic(deps: Dependencies) {
    exists c :: Cycle(deps, c)
  }

  predicate Cycle(deps: Dependencies, c: seq<Module>) {
    Chain(deps, c) && |c| >= 2 && c[0] == c[|c| - 1]
  }

  ghost predicate Closed(deps: Dependencies) {
    forall m, d :: m in deps && d in deps[m] ==> d in deps
  }

  // ---------------------------------------------------------------------------------------------
  // Layers

  /** `m` can be loaded in one of the first `n` steps. */
  predicate LoadableBy(deps: Dependencies, m: Module, n: nat)
    decreases n
  {
    n > 0 && m in deps && forall d :: d in deps[m] ==> LoadableBy(deps, d, n - 1)
  }

  /** Loaded in step `k`, and in no earlier one. */
  predicate InLayer(deps: Dependencies, m: Module, k: nat) {
    LoadableBy(deps, m, k + 1) && !LoadableBy(deps, m, k)
  }

  /** The modules of step `k`, in the order of `keys`. */
  function Layer(deps: Dependencies, keys: seq<Module>, k: nat): seq<Module> {
    if keys == [] then []
    else
      var last := keys[|keys| - 1];
      var rest := Layer(deps, keys[..|keys| - 1], k);
      if InLayer(deps, last, k) then rest + [last] else rest
  }

  function Layers(deps: Dependencies, keys: seq<Module>, n: nat): seq<seq<Module>> {
    if n == 0 then [] else Layers(deps, keys, n - 1) + [Layer(deps, keys, n - 1)]
  }

  /** The modules still pending after `n` steps, in the order of `keys`. */
  function Pending(deps: Dependencies, keys: seq<Module>, n: nat): seq<Module> {
    if keys == [] then []
    else
      var last := keys[|keys| - 1];
      var rest := Pending(deps, keys[..|keys| - 1], n);
      if LoadableBy(deps, last, n) then rest else rest + [last]
  }

  function Flatten(layers: seq<seq<Module>>): seq<Module> {
    if layers == [] then [] else Flatten(layers[..|layers| - 1]) + layers[|layers| - 1]
  }

  predicate CanLoad(deps: Dependencies, current: seq<Module>, m: Module) {
    m in deps && forall d :: d in deps[m] ==> d in current
  }

  function Ready(deps: Dependencies, pending: seq<Module>, current: seq<Module>): seq<Module> {
    if pending == [] then []
    else
      var last := pending[|pending| - 1];
      var rest := Ready(deps, pending[..|pending| - 1], current);
      if CanLoad(deps, current, last) then rest + [last] else rest
  }

  /** list.remove: drops the first occurrence. */
  function Remove(s: seq<Module>, x: Module): seq<Module> {
    if s == [] then [] else if s[0] == x then s[1..] else [s[0]] + Remove(s[1..], x)
  }

  function RemoveAll(s: seq<Module>, xs: seq<Module>): seq<Module> {
    if xs == [] then s else Remove(RemoveAll(s, xs[..|xs| - 1]), xs[|xs| - 1])
  }

  // ---------------------------------------------------------------------------------------------
  // One step of the code computes the next layer

  lemma {:induction false} LoadableLater(deps: Dependencies, m: Module, n: nat)
    requires LoadableBy(deps, m, n)
    ensures LoadableBy(deps, m, n + 1)
    decreases n
  {
    forall d | d in deps[m] ensures LoadableBy(deps, d, n) {
      LoadableLater(deps, d, n - 1);
    }
  }

  lemma {:induction false} InLayerList(deps: Dependencies, keys: seq<Module>, k: nat, m: Module)
    ensures m in Layer(deps, keys, k) <==> m in keys && InLayer(deps, m, k)
  {
    if keys == [] {
    } else {
      InLayerList(deps, keys[..|keys| - 1], k, m);
      assert keys == keys[..|keys| - 1] + [keys[|keys| - 1]];
    }
  }

  lemma {:induction false} InPending(deps: Dependencies, keys: seq<Module>, n: nat, m: Module)
    ensures m in Pending(deps, keys, n) <==> m in keys && !LoadableBy(deps, m, n)
  {
    if keys == [] {
    } else {
      InPending(deps, keys[..|keys| - 1], n, m);
      assert keys == keys[..|keys| - 1] + [keys[|keys| - 1]];
    }
  }

  lemma FlattenStep(deps: Dependencies, keys: seq<Module>, n: nat)
    requires n > 0
    ensures Flatten(Layers(deps, keys, n)) == Flatten(Layers(deps, keys, n - 1)) + Layer(deps, keys, n - 1)
  {
    var layers := Layers(deps, keys, n - 1);
    assert (layers + [Layer(deps, keys, n - 1)])[..|layers|] == layers;
  }

  lemma InFlattenStep(deps: Dependencies, keys: seq<Module>, n: nat, m: Module)
    requires n > 0
    ensures m in Flatten(Layers(deps, keys, n))
       <==> m in Flatten(Layers(deps, keys, n - 1)) || (m in keys && InLayer(deps, m, n - 1))
  {
    FlattenStep(deps, keys, n);
    InLayerList(deps, keys, n - 1, m);
  }

  /** What has been loaded after `n` steps. */
  lemma {:induction false} InFlatten(deps: Dependencies, keys: seq<Module>, n: nat, m: Module)
    ensures m in Flatten(Layers(deps, keys, n)) <==> m in keys && LoadableBy(deps, m, n)
  {
    if n == 0 {
    } else {
      InFlatten(deps, keys, n - 1, m);
      InFlattenStep(deps, keys, n, m);
      if LoadableBy(deps, m, n - 1) {
        LoadableLater(deps, m, n - 1);
      }
    }
  }

  lemma {:induction false} LayersLength(deps: Dependencies, keys: seq<Module>, n: nat)
    ensures |Layers(deps, keys, n)| == n
    ensures forall k :: 0 <= k < n ==> Layers(deps, keys, n)[k] == Layer(deps, keys, k)
  {
    if n == 0 {
    } else {
      LayersLength(deps, keys, n - 1);
    }
  }

  /** Among the pending modules, exactly those of the next layer can be loaded. */
  lemma {:induction false} ReadyIsLayer(deps: Dependencies, keys: seq<Module>, n: nat, current: seq<Module>)
    requires forall m :: m in current <==> m in deps && LoadableBy(deps, m, n)
    ensures Ready(deps, Pending(deps, keys, n), current) == Layer(deps, keys, n)
  {
    if keys == [] {
    } else {
      var init, last := keys[..|keys| - 1], keys[|keys| - 1];
      ReadyIsLayer(deps, init, n, current);
      assert CanLoad(deps, current, last) <==> LoadableBy(deps, last, n + 1);
      var pending := Pending(deps, init, n);
      assert (pending + [last])[..|pending|] == pending;
    }
  }

  lemma {:induction false} RemoveLast(s: seq<Module>, x: Module)
    requires x !in s
    ensures Remove(s + [x], x) == s
  {
    if s == [] {
    } else {
      assert (s + [x])[1..] == s[1..] + [x];
      RemoveLast(s[1..], x);
    }
  }

  lemma {:induction false} RemoveKeepsLast(s: seq<Module>, y: Module, x: Module)
    requires x in s
    ensures Remove(s + [y], x) == Remove(s, x) + [y]
  {
    assert s == [s[0]] + s[1..];
    assert (s + [y])[1..] == s[1..] + [y];
    if s[0] != x {
      RemoveKeepsLast(s[1..], y, x);
    }
  }

  lemma {:induction false} RemoveAllKeepsLast(s: seq<Module>, y: Module, xs: seq<Module>)
    requires NoDuplicates(xs) && NoDuplicates(s) && forall x :: x in xs ==> x in s
    ensures RemoveAll(s + [y], xs) == RemoveAll(s, xs) + [y]
    ensures forall x :: x in RemoveAll(s, xs) <==> x in s && x !in xs
    ensures NoDuplicates(RemoveAll(s, xs))
  {
    if xs == [] {
    } else {
      var init, last := xs[..|xs| - 1], xs[|xs| - 1];
      assert xs == init + [last];
      RemoveAllKeepsLast(s, y, init);
      RemoveKeepsLast(RemoveAll(s, init), y, last);
      InRemove(RemoveAll(s, init), last);
    }
  }

  lemma {:induction false} InRemove(s: seq<Module>, x: Module)
    requires NoDuplicates(s)
    ensures NoDuplicates(Remove(s, x))
    ensures forall y :: y in Remove(s, x) <==> y in s && y != x
  {
    if s == [] {
    } else {
      assert s == [s[0]] + s[1..];
      assert s[0] !in s[1..];
      InRemove(s[1..], x);
    }
  }

  lemma {:induction false} ListsNoDuplicates(deps: Dependencies, keys: seq<Module>, n: nat)
    requires NoDuplicates(keys)
    ensures NoDuplicates(Layer(deps, keys, n)) && NoDuplicates(Pending(deps, keys, n))
  {
    if keys == [] {
    } else {
      ListsNoDuplicates(deps, keys[..|keys| - 1], n);
      InLayerList(deps, keys[..|keys| - 1], n, keys[|keys| - 1]);
      InPending(deps, keys[..|keys| - 1], n, keys[|keys| - 1]);
    }
  }

  /** Removing the next layer from the pending list leaves the list after the next step. */
  lemma {:induction false} PendingStep(deps: Dependencies, keys: seq<Module>, n: nat)
    requires NoDuplicates(keys)
    ensures RemoveAll(Pending(deps, keys, n), Layer(deps, keys, n)) == Pending(deps, keys, n + 1)
  {
    if keys == [] {
    } else {
      var init, last := keys[..|keys| - 1], keys[|keys| - 1];
      PendingStep(deps, init, n);
      ListsNoDuplicates(deps, init, n);
      forall m ensures m in Layer(deps, init, n) ==> m in Pending(deps, init, n) {
        InLayerList(deps, init, n, m);
        InPending(deps, init, n, m);
      }
      RemoveAllKeepsLast(Pending(deps, init, n), last, Layer(deps, init, n));
      if LoadableBy(deps, last, n) {
        LoadableLater(deps, last, n);
      } else if LoadableBy(deps, last, n + 1) {
        var layer := Layer(deps, init, n);
        assert (layer + [last])[..|layer|] == layer;
        InPending(deps, init, n, last);
        RemoveLast(RemoveAll(Pending(deps, init, n), layer), last);
      }
    }
  }

  // ---------------------------------------------------------------------------------------------
  // The code

  class LoadState {
    const deps: Dependencies
    ghost const keys: seq<Module>
    var pending: seq<Module>
    var current: seq<Module>
    var steps: seq<seq<Module>>

    /** `keys` are the keys of the dictionary in its own order. */
    constructor (deps: Dependencies, keys: seq<Module>)
      requires NoDuplicates(keys) && forall m :: m in keys <==> m in deps
      ensures this.deps == deps && this.keys == keys && AfterSteps(0)
    {
      this.deps, this.keys := deps, keys;
      pending, current, steps := keys, [], [];
      new;
      NothingLoaded(deps, keys);
    }

    /** The state after `n` steps. */
    ghost predicate AfterSteps(n: nat)
      reads this
    {
      && NoDuplicates(keys) && (forall m :: m in keys <==> m in deps)
      && steps == Layers(deps, keys, n)
      && pending == Pending(deps, keys, n)
      && current == Flatten(steps)
    }

    method ModulesThatCanBeLoaded() returns (modules: seq<Module>)
      requires forall m :: m in pending ==> m in deps
      ensures modules == Ready(deps, pending, current)
    {
      modules := [];
      for i := 0 to |pending|
        invariant modules == Ready(deps, pending[..i], current)
      {
        var m := pending[i];
        assert m in pending;
        var canBeLoaded := true;
        for j := 0 to |deps[m]|
          invariant canBeLoaded
          invariant forall k :: 0 <= k < j ==> deps[m][k] in current
        {
          if deps[m][j] !in current {
            canBeLoaded := false;
            break;
          }
        }
        assert canBeLoaded <==> CanLoad(deps, current, m);
        assert pending[..i + 1][..i] == pending[..i];
        if !canBeLoaded {
          continue;
        }
        modules := modules + [m];
      }
      assert pending[..|pending|] == pending;
    }

    /** One step: loads every module that can be loaded now. */
    method LoadStep(ghost n: nat) returns (modules: seq<Module>)
      requires AfterSteps(n)
      modifies this
      ensures AfterSteps(n + 1) && modules == Layer(deps, keys, n)
      ensures |pending| + |modules| == old(|pending|)
    {
      forall m ensures m in pending ==> m in deps {
        InPending(deps, keys, n, m);
      }
      modules := ModulesThatCanBeLoaded();
      LoadedSoFar(n, modules);
      steps := steps + [[]];
      for i := 0 to |modules|
        invariant steps == old(steps) + [modules[..i]]
        invariant current == old(current) + modules[..i]
        invariant pending == RemoveAll(old(pending), modules[..i])
      {
        var m := modules[i];
        AppendToLast(old(steps), modules[..i], m);
        steps := steps[|steps| - 1 := steps[|steps| - 1] + [m]];
        pending := Remove(pending, m);
        current := current + [m];
        assert modules[..i + 1][..i] == modules[..i] && modules[..i + 1] == modules[..i] + [m];
      }
      assert modules[..|modules|] == modules;
      assert steps[..|steps| - 1] == old(steps);
      PendingStep(deps, keys, n);
      PendingLength(deps, keys, n);
    }

    lemma LoadedSoFar(n: nat, modules: seq<Module>)
      requires AfterSteps(n) && modules == Ready(deps, pending, current)
      ensures modules == Layer(deps, keys, n)
    {
      forall m ensures m in current <==> m in deps && LoadableBy(deps, m, n) {
        InFlatten(deps, keys, n, m);
      }
      ReadyIsLayer(deps, keys, n, current);
    }

    lemma StepsCount(n: nat)
      requires AfterSteps(n)
      ensures |steps| == n
    {
      LayersLength(deps, keys, n);
    }

    /** Recurses until nothing is pending.  When a step loads nothing although modules are pending, the
        next call would see the same lists again: the code never returns (`ReturnsIff`), and `ok` is false. */
    method DependencyOrder(stepNumber: nat) returns (ok: bool, calls: nat)
      requires AfterSteps(stepNumber)
      modifies this
      ensures AfterSteps(|steps|)
      ensures ok <==> pending == []
      ensures ok ==> calls == |steps| - stepNumber + 1 && calls <= old(|pending|) + 1
      ensures !ok ==> |steps| > 0 && Layer(deps, keys, |steps| - 1) == []
      decreases |pending|
    {
      StepsCount(stepNumber);
      if |pending| == 0 {
        return true, 1;
      }
      var modules := LoadStep(stepNumber);
      StepsCount(stepNumber + 1);
      if modules == [] {
        return false, 1;
      }
      ok, calls := DependencyOrder(stepNumber + 1);
      calls := calls + 1;
    }
  }

  lemma AppendToLast(steps: seq<seq<Module>>, layer: seq<Module>, m: Module)
    ensures (steps + [layer])[|steps| := layer + [m]] == steps + [layer + [m]]
  {
  }

  lemma {:induction false} NothingLoaded(deps: Dependencies, keys: seq<Module>)
    ensures Pending(deps, keys, 0) == keys
  {
    if keys == [] {
    } else {
      NothingLoaded(deps, keys[..|keys| - 1]);
      assert keys == keys[..|keys| - 1] + [keys[|keys| - 1]];
    }
  }

  lemma {:induction false} PendingLength(deps: Dependencies, keys: seq<Module>, n: nat)
    ensures |Pending(deps, keys, n + 1)| + |Layer(deps, keys, n)| == |Pending(deps, keys, n)|
  {
    if keys == [] {
    } else {
      PendingLength(deps, keys[..|keys| - 1], n);
      var last := keys[|keys| - 1];
      if LoadableBy(deps, last, n) {
        LoadableLater(deps, last, n);
      }
    }
  }

  // ---------------------------------------------------------------------------------------------
  // Layers are chain lengths

  lemma ChainTail(deps: Dependencies, c: seq<Module>)
    requires Chain(deps, c) && |c| > 1
    ensures ChainFrom(deps, c[1], c[1..]) && c[0] in deps && c[1] in deps[c[0]]
  {
    assert Linked(deps, c, 0);
    forall i | 0 <= i < |c| - 2 ensures Linked(deps, c[1..], i) {
      assert Linked(deps, c, i + 1);
    }
  }

  lemma ChainCons(deps: Dependencies, m: Module, c: seq<Module>)
    requires m in deps && Chain(deps, c) && c[0] in deps[m]
    ensures ChainFrom(deps, m, [m] + c)
  {
    forall i | 0 <= i < |c| ensures Linked(deps, [m] + c, i) {
      assert i > 0 ==> Linked(deps, c, i - 1);
    }
  }

  /** A module can be loaded within `n` steps exactly when no chain from it is longer than `n` modules
      or leaves the keys. */
  lemma {:induction false} LoadableByChains(deps: Dependencies, m: Module, n: nat)
    ensures LoadableBy(deps, m, n) <==> forall c :: ChainFrom(deps, m, c) ==> |c| <= n && c[|c| - 1] in deps
    decreases n
  {
    if LoadableBy(deps, m, n) {
      forall c | ChainFrom(deps, m, c) ensures |c| <= n && c[|c| - 1] in deps {
        if |c| > 1 {
          ChainTail(deps, c);
          LoadableByChains(deps, c[1], n - 1);
        }
      }
    } else {
      assert ChainFrom(deps, m, [m]);
      if n > 0 && m in deps {
        var d :| d in deps[m] && !LoadableBy(deps, d, n - 1);
        LoadableByChains(deps, d, n - 1);
        var c :| ChainFrom(deps, d, c) && !(|c| <= n - 1 && c[|c| - 1] in deps);
        ChainCons(deps, m, c);
      }
    }
  }

  lemma {:induction false} ChainStaysInside(deps: Dependencies, c: seq<Module>, i: nat)
    requires Closed(deps) && Chain(deps, c) && c[0] in deps && i < |c|
    ensures c[i] in deps
  {
    if i == 0 {
    } else {
      ChainStaysInside(deps, c, i - 1);
      assert Linked(deps, c, i - 1);
    }
  }

  /** In a closed map the modules of step `k` are exactly those whose longest chain has `k`
      dependencies. */
  lemma LayerIsLongestChain(deps: Dependencies, keys: seq<Module>, m: Module, k: nat)
    requires Closed(deps) && forall x :: x in keys <==> x in deps
    ensures m in Layer(deps, keys, k) <==> m in deps && LongestChain(deps, m, k)
  {
    InLayerList(deps, keys, k, m);
    LoadableByChains(deps, m, k);
    LoadableByChains(deps, m, k + 1);
    if m in deps {
      forall c | ChainFrom(deps, m, c) ensures c[|c| - 1] in deps {
        ChainStaysInside(deps, c, |c| - 1);
      }
      if InLayer(deps, m, k) {
        var c :| ChainFrom(deps, m, c) && |c| > k;
        assert |c| == k + 1;
      }
    }
  }

  // ---------------------------------------------------------------------------------------------
  // Getting stuck means a cycle or a missing library

  lemma {:induction false} LoadableAlong(deps: Dependencies, c: seq<Module>, n: nat)
    requires Chain(deps, c) && LoadableBy(deps, c[0], n)
    ensures n >= |c| && LoadableBy(deps, c[|c| - 1], n - (|c| - 1))
    decreases |c|
  {
    if |c| == 1 {
    } else {
      ChainTail(deps, c);
      LoadableAlong(deps, c[1..], n - 1);
    }
  }

  lemma {:induction false} CyclesNeverLoad(deps: Dependencies, c: seq<Module>, n: nat)
    requires Cycle(deps, c)
    ensures !LoadableBy(deps, c[0], n)
    decreases n
  {
    if LoadableBy(deps, c[0], n) {
      LoadableAlong(deps, c, n);
      CyclesNeverLoad(deps, c, n - (|c| - 1));
    }
  }

  lemma {:induction false} DistinctBounded<T>(s: seq<T>, pool: set<T>)
    requires NoDuplicates(s) && forall x :: x in s ==> x in pool
    ensures |s| <= |pool|
  {
    if s == [] {
    } else {
      var last := s[|s| - 1];
      assert last in s;
      forall x | x in s[..|s| - 1] ensures x in pool - {last} {
        assert x in s;
      }
      DistinctBounded(s[..|s| - 1], pool - {last});
    }
  }

  ghost predicate DependsInto(deps: Dependencies, m: Module, pool: set<Module>) {
    m in deps && exists d :: d in deps[m] && d in pool
  }

  ghost predicate NoWayOut(deps: Dependencies, pool: set<Module>) {
    forall m {:trigger DependsInto(deps, m, pool)} :: m in pool ==> DependsInto(deps, m, pool)
  }

  lemma {:induction false} EndlessChain(deps: Dependencies, pool: set<Module>, m: Module, n: nat)
    returns (c: seq<Module>)
    requires m in pool && n > 0 && NoWayOut(deps, pool)
    ensures ChainFrom(deps, m, c) && |c| == n && forall x :: x in c ==> x in pool
    decreases n
  {
    if n == 1 {
      return [m];
    }
    assert DependsInto(deps, m, pool);
    var d :| d in deps[m] && d in pool;
    var rest := EndlessChain(deps, pool, d, n - 1);
    ChainCons(deps, m, rest);
    c := [m] + rest;
  }

  /** If every module of a non-empty pool depends on one in the pool, there is a cycle. */
  lemma PoolHasCycle(deps: Dependencies, pool: set<Module>, m: Module)
    requires m in pool && NoWayOut(deps, pool)
    ensures Cyclic(deps)
  {
    var c := EndlessChain(deps, pool, m, |pool| + 1);
    var i, j := Repetition(c, pool);
    RepetitionIsCycle(deps, c, i, j);
  }

  lemma RepetitionIsCycle(deps: Dependencies, c: seq<Module>, i: nat, j: nat)
    requires Chain(deps, c) && i < j < |c| && c[i] == c[j]
    ensures Cyclic(deps)
  {
    SubChain(deps, c, i, j);
    assert Cycle(deps, c[i..j + 1]);
  }

  lemma Repetition<T>(s: seq<T>, pool: set<T>) returns (i: nat, j: nat)
    requires |s| > |pool| && forall x :: x in s ==> x in pool
    ensures i < j < |s| && s[i] == s[j]
  {
    if NoDuplicates(s) {
      DistinctBounded(s, pool);
    }
    i, j :| 0 <= i < j < |s| && s[i] == s[j];
  }

  lemma SubChain(deps: Dependencies, c: seq<Module>, i: nat, j: nat)
    requires Chain(deps, c) && i < j < |c|
    ensures Chain(deps, c[i..j + 1]) && c[i..j + 1][0] == c[i] && c[i..j + 1][j - i] == c[j]
  {
    var part := c[i..j + 1];
    forall k | 0 <= k < |part| - 1 ensures Linked(deps, part, k) {
      assert Linked(deps, c, i + k);
    }
  }

  /** A step loads nothing while modules are pending only if the map has a cycle or names a library
      that is not one of its keys. */
  lemma {:induction false} StuckMeansBroken(deps: Dependencies, keys: seq<Module>, n: nat)
    requires forall m :: m in keys <==> m in deps
    requires Pending(deps, keys, n + 1) != [] && Layer(deps, keys, n) == []
    ensures !Sound(deps)
  {
    if Closed(deps) {
      var pool := set m | m in deps && !LoadableBy(deps, m, n + 1);
      var first := Pending(deps, keys, n + 1)[0];
      InPending(deps, keys, n + 1, first);
      forall x | x in pool ensures DependsInto(deps, x, pool) {
        var d :| d in deps[x] && !LoadableBy(deps, d, n);
        InLayerList(deps, keys, n, d);
        assert d in pool;
      }
      PoolHasCycle(deps, pool, first);
    }
  }

  lemma EverythingLoadsMeansSound(deps: Dependencies, keys: seq<Module>, n: nat)
    requires forall m :: m in keys <==> m in deps
    requires Pending(deps, keys, n) == []
    ensures Sound(deps)
  {
    forall m | m in deps ensures LoadableBy(deps, m, n) {
      InPending(deps, keys, n, m);
    }
    forall m, d | m in deps && d in deps[m] ensures d in deps {
      assert LoadableBy(deps, d, n - 1);
    }
    if c :| Cycle(deps, c) {
      assert Linked(deps, c, 0);
      CyclesNeverLoad(deps, c, n);
    }
  }

  /** A step that loads nothing leaves nothing pending. */
  ghost predicate KeepsLoading(deps: Dependencies, keys: seq<Module>) {
    forall k: nat :: Layer(deps, keys, k) == [] ==> Pending(deps, keys, k + 1) == []
  }

  lemma SoundKeepsLoading(deps: Dependencies, keys: seq<Module>)
    requires Sound(deps) && forall m :: m in keys <==> m in deps
    ensures KeepsLoading(deps, keys)
  {
    forall k: nat | Layer(deps, keys, k) == [] ensures Pending(deps, keys, k + 1) == [] {
      if Pending(deps, keys, k + 1) != [] {
        StuckMeansBroken(deps, keys, k);
      }
    }
  }

  lemma {:induction false} PendingShrinks(deps: Dependencies, keys: seq<Module>, n: nat)
    requires KeepsLoading(deps, keys)
    ensures Pending(deps, keys, n) == [] || |Pending(deps, keys, n)| + n <= |keys|
  {
    if n == 0 {
      NothingLoaded(deps, keys);
    } else {
      PendingShrinks(deps, keys, n - 1);
      PendingLength(deps, keys, n - 1);
      assert Layer(deps, keys, n - 1) == [] ==> Pending(deps, keys, n) == [];
    }
  }

  /** The recursion returns, that is, some call sees nothing pending, if and only if the map is closed
      and acyclic; otherwise the calls go on for ever. */
  lemma ReturnsIff(deps: Dependencies, keys: seq<Module>)
    requires forall m :: m in keys <==> m in deps
    ensures (exists n :: Pending(deps, keys, n) == []) <==> Sound(deps)
  {
    if n :| Pending(deps, keys, n) == [] {
      EverythingLoadsMeansSound(deps, keys, n);
    }
    if Sound(deps) {
      SoundKeepsLoading(deps, keys);
      PendingShrinks(deps, keys, |keys| + 1);
      assert Pending(deps, keys, |keys| + 1) == [];
    }
  }

  // ---------------------------------------------------------------------------------------------
  // The resulting order

  predicate DependenciesFirst(deps: Dependencies, order: seq<Module>) {
    forall i :: 0 <= i < |order| ==>
      order[i] in deps && forall d :: d in deps[order[i]] ==> d in order[..i]
  }

  predicate InOrder(deps: Dependencies, order: seq<Module>) {
    NoDuplicates(order) && DependenciesFirst(deps, order)
  }

  lemma {:induction false} LayersInOrder(deps: Dependencies, keys: seq<Module>, n: nat)
    requires NoDuplicates(keys) && forall m :: m in keys <==> m in deps
    ensures InOrder(deps, Flatten(Layers(deps, keys, n)))
  {
    if n == 0 {
    } else {
      LayersInOrder(deps, keys, n - 1);
      LayerInOrder(deps, keys, n - 1);
      FlattenStep(deps, keys, n);
    }
  }

  lemma LayerInOrder(deps: Dependencies, keys: seq<Module>, k: nat)
    requires NoDuplicates(keys) && (forall m :: m in keys <==> m in deps)
    requires InOrder(deps, Flatten(Layers(deps, keys, k)))
    ensures InOrder(deps, Flatten(Layers(deps, keys, k)) + Layer(deps, keys, k))
  {
    ListsNoDuplicates(deps, keys, k);
    forall m | m in Layer(deps, keys, k) ensures LoadsAfter(deps, Flatten(Layers(deps, keys, k)), m) {
      LayerAfterEarlier(deps, keys, k, m);
    }
    OrderConcat(deps, Flatten(Layers(deps, keys, k)), Layer(deps, keys, k));
  }

  predicate LoadsAfter(deps: Dependencies, before: seq<Module>, m: Module) {
    m !in before && CanLoad(deps, before, m)
  }

  lemma LayerAfterEarlier(deps: Dependencies, keys: seq<Module>, k: nat, m: Module)
    requires m in Layer(deps, keys, k) && forall x :: x in keys <==> x in deps
    ensures LoadsAfter(deps, Flatten(Layers(deps, keys, k)), m)
  {
    InLayerList(deps, keys, k, m);
    InFlatten(deps, keys, k, m);
    forall d | d in deps[m] ensures d in Flatten(Layers(deps, keys, k)) {
      assert LoadableBy(deps, d, k) && d in deps;
      InFlatten(deps, keys, k, d);
    }
  }

  lemma OrderConcat(deps: Dependencies, before: seq<Module>, layer: seq<Module>)
    requires InOrder(deps, before) && NoDuplicates(layer)
    requires forall m :: m in layer ==> LoadsAfter(deps, before, m)
    ensures InOrder(deps, before + layer)
  {
    var order := before + layer;
    forall i, j | 0 <= i < j < |order| ensures order[i] != order[j] {
      if i < |before| <= j {
        assert order[j] in layer && LoadsAfter(deps, before, order[j]);
      }
    }
    forall i | 0 <= i < |order|
      ensures order[i] in deps && forall d :: d in deps[order[i]] ==> d in order[..i]
    {
      if i < |before| {
        assert order[..i] == before[..i];
      } else {
        assert order[i] in layer && LoadsAfter(deps, before, order[i]);
        assert order[..i] == before + layer[..i - |before|];
      }
    }
  }

  /** The modules of `layer` stand in `keys` at ascending positions. */
  ghost predicate InKeyOrder(keys: seq<Module>, layer: seq<Module>) {
    exists ps :: Positions(keys, layer, ps)
  }

  ghost predicate Positions(keys: seq<Module>, layer: seq<Module>, ps: seq<nat>) {
    && |ps| == |layer|
    && (forall i :: 0 <= i < |ps| ==> ps[i] < |keys| && keys[ps[i]] == layer[i])
    && (forall i, j :: 0 <= i < j < |ps| ==> ps[i] < ps[j])
  }

  lemma {:induction false} LayerPositions(deps: Dependencies, keys: seq<Module>, k: nat) returns (ps: seq<nat>)
    ensures Positions(keys, Layer(deps, keys, k), ps)
  {
    if keys == [] {
      ps := [];
    } else {
      var n := |keys| - 1;
      ps := LayerPositions(deps, keys[..n], k);
      if InLayer(deps, keys[n], k) {
        ps := ps + [n];
      }
    }
  }

  /** Within a step the modules keep the order of the dictionary. */
  lemma LayerKeepsKeyOrder(deps: Dependencies, keys: seq<Module>, k: nat)
    ensures InKeyOrder(keys, Layer(deps, keys, k))
  {
    var ps := LayerPositions(deps, keys, k);
  }

  lemma LayersKeepKeyOrder(deps: Dependencies, keys: seq<Module>, n: nat)
    ensures forall k :: 0 <= k < |Layers(deps, keys, n)| ==> InKeyOrder(keys, Layers(deps, keys, n)[k])
  {
    LayersLength(deps, keys, n);
    forall k | 0 <= k < n ensures InKeyOrder(keys, Layers(deps, keys, n)[k]) {
      LayerKeepsKeyOrder(deps, keys, k);
    }
  }

  /** A permutation of the libraries with every dependency before its dependents. */
  ghost predicate LoadOrderOf(deps: Dependencies, order: seq<Module>) {
    InOrder(deps, order) && forall m :: m in order <==> m in deps
  }

  /** Step k holds exactly the modules whose longest chain has k dependencies. */
  ghost predicate StepsAreRanks(deps: Dependencies, steps: seq<seq<Module>>) {
    forall k, m :: 0 <= k < |steps| ==> (m in steps[k] <==> m in deps && LongestChain(deps, m, k))
  }

  ghost predicate Sound(deps: Dependencies) {
    Closed(deps) && !Cyclic(deps)
  }

  lemma FlattenedIsLoadOrder(deps: Dependencies, keys: seq<Module>, n: nat)
    requires NoDuplicates(keys) && (forall m :: m in keys <==> m in deps) && Pending(deps, keys, n) == []
    ensures LoadOrderOf(deps, Flatten(Layers(deps, keys, n)))
  {
    LayersInOrder(deps, keys, n);
    forall m ensures m in Flatten(Layers(deps, keys, n)) <==> m in deps {
      InFlatten(deps, keys, n, m);
      InPending(deps, keys, n, m);
    }
  }

  lemma LayersAreRanks(deps: Dependencies, keys: seq<Module>, n: nat)
    requires (forall m :: m in keys <==> m in deps) && Closed(deps)
    ensures StepsAreRanks(deps, Layers(deps, keys, n))
  {
    LayersLength(deps, keys, n);
    forall k, m | 0 <= k < n ensures m in Layers(deps, keys, n)[k] <==> m in deps && LongestChain(deps, m, k) {
      LayerIsLongestChain(deps, keys, m, k);
    }
  }

  /** The layers after `n` steps, when the code stopped there: nothing is pending, or the last step
      loaded nothing. */
  lemma {:induction false} StepsResult(deps: Dependencies, keys: seq<Module>, n: nat)
    requires NoDuplicates(keys) && forall m :: m in keys <==> m in deps
    requires Pending(deps, keys, n) == [] || (n > 0 && Layer(deps, keys, n - 1) == [])
    ensures Pending(deps, keys, n) == [] <==> Sound(deps)
    ensures Sound(deps) ==>
      LoadOrderOf(deps, Flatten(Layers(deps, keys, n))) && StepsAreRanks(deps, Layers(deps, keys, n))
  {
    if Pending(deps, keys, n) == [] {
      EverythingLoadsMeansSound(deps, keys, n);
      FlattenedIsLoadOrder(deps, keys, n);
      LayersAreRanks(deps, keys, n);
    } else {
      StuckMeansBroken(deps, keys, n - 1);
    }
  }

  /** Sorts the libraries, or reports that the recursion would not end. */
  method SortToDependencies(deps: Dependencies, keys: seq<Module>)
    returns (ok: bool, order: seq<Module>, steps: seq<seq<Module>>, calls: nat)
    requires NoDuplicates(keys) && forall m :: m in keys <==> m in deps
    ensures ok <==> Sound(deps)
    ensures ok ==> order == Flatten(steps) && LoadOrderOf(deps, order) && StepsAreRanks(deps, steps)
    ensures ok ==> calls == |steps| + 1 <= |keys| + 1
    ensures forall k :: 0 <= k < |steps| ==> InKeyOrder(keys, steps[k])
  {
    var state := new LoadState(deps, keys);
    NothingLoaded(deps, keys);
    ok, calls := state.DependencyOrder(0);
    steps := state.steps;
    order := ExtendAll(steps);
    StepsResult(deps, keys, |steps|);
    LayersKeepKeyOrder(deps, keys, |steps|);
  }

  method ExtendAll(steps: seq<seq<Module>>) returns (order: seq<Module>)
    ensures order == Flatten(steps)
  {
    order := [];
    for i := 0 to |steps|
      invariant order == Flatten(steps[..i])
    {
      order := order + steps[i];
      assert steps[..i + 1][..i] == steps[..i];
    }
    assert steps[..|steps|] == steps;
  }
}
