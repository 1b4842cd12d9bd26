/**
 * Layered configuration as values: one key-to-value map per source, numbered by priority, and a
 * merged cache that is updated event by event. Keys are lower-case texts split at dots.
 */
module Layers {
  import opened Wrappers
  import opened PrefixTrees

  const SEPARATOR := '.'

  datatype ValueNode = ValueNode(level: int, value: string)

  type Values = map<string, string>
  type Cache = map<string, ValueNode>

  /** The highest of the first `n` levels that hold `k`, or -1. */
  function Highest(layers: seq<Values>, k: string, n: nat): (i: int)
    requires n <= |layers|
    ensures -1 <= i < n
    ensures i >= 0 ==> k in layers[i]
    ensures forall j | i < j < n :: k !in layers[j]
  {
    if n == 0 then -1 else if k in layers[n - 1] then n - 1 else Highest(layers, k, n - 1)
  }

  function Fallback(layers: seq<Values>, level: nat, k: string): (r: Option<ValueNode>)
    requires level <= |layers|
  {
    var i := Highest(layers, k, level);
    if i < 0 then None else Some(ValueNode(i, layers[i][k]))
  }

  function Lookup(cache: Cache, k: string): Option<ValueNode> {
    if k in cache then Some(cache[k]) else None
  }

  /** The cache agrees with "the highest level that has the key". */
  ghost predicate Layered(layers: seq<Values>, cache: Cache) {
    forall k :: LayeredAt(layers, cache, k)
  }

  ghost predicate LayeredAt(layers: seq<Values>, cache: Cache, k: string) {
    Lookup(cache, k) == if IsKey(k, SEPARATOR) then Fallback(layers, |layers|, k) else None
  }

  /** Every cached value is what its level holds. */
  ghost predicate Grounded(layers: seq<Values>, cache: Cache) {
    forall k | k in cache :: GroundedAt(layers, cache[k], k)
  }

  ghost predicate GroundedAt(layers: seq<Values>, node: ValueNode, k: string) {
    && IsKey(k, SEPARATOR)
    && 0 <= node.level < |layers| && k in layers[node.level] && layers[node.level][k] == node.value
  }

  // ----- events -----

  datatype Event =
    | Update(level: nat, val: Values)
    | Delete(level: nat, keys: set<string>)
    | Sync(level: nat, val: Values)

  datatype State = State(layers: seq<Values>, cache: Cache)

  /** What the source wrapper keeps; a sync never removes a key. */
  function StepLayers(layers: seq<Values>, e: Event): (r: seq<Values>)
    requires e.level < |layers|
    ensures |r| == |layers|
  {
    match e
    case Delete(level, keys) => layers[level := layers[level] - keys]
    case _ => layers[e.level := layers[e.level] + e.val]
  }

  /** `onUpdate`: the entries of `val` that are not shadowed by a higher level. */
  function PutAll(cache: Cache, level: int, val: Values): Cache {
    cache + map k | k in val && IsKey(k, SEPARATOR) && (k in cache ==> cache[k].level <= level)
                  :: ValueNode(level, val[k])
  }

  /** `onDelete`: keys of this level fall back to the highest lower level that has them. */
  function DropAll(layers: seq<Values>, cache: Cache, level: nat, keys: set<string>): Cache
    requires level <= |layers|
  {
    map k | k in cache && (k in keys && cache[k].level == level ==> Fallback(layers, level, k).Some?)
          :: if k in keys && cache[k].level == level then Fallback(layers, level, k).value else cache[k]
  }

  /** The cached keys of a level that a sync does not mention. */
  function Missing(cache: Cache, level: int, val: Values): set<string> {
    set k | k in cache && cache[k].level == level && k !in val
  }

  function StepCache(layers: seq<Values>, cache: Cache, e: Event): Cache
    requires e.level < |layers|
  {
    match e
    case Update(level, val) => PutAll(cache, level, val)
    case Delete(level, keys) => DropAll(layers, cache, level, keys)
    case Sync(level, val) =>
      // the notifier does not pass on an empty event
      if val == map[] then cache
      else DropAll(layers, PutAll(cache, level, val), level, Missing(cache, level, val))
  }

  function Step(s: State, e: Event): State
    requires e.level < |s.layers|
  {
    var layers := StepLayers(s.layers, e);
    State(layers, StepCache(layers, s.cache, e))
  }

  // ----- layering -----

  /** A layer below `level` is not touched, so the fallback from `level` is not. */
  lemma {:induction false} HighestSame(a: seq<Values>, b: seq<Values>, k: string, n: nat)
    requires |a| == |b| && n <= |a|
    requires forall i | 0 <= i < n :: (k in a[i] <==> k in b[i]) && (k in a[i] ==> a[i][k] == b[i][k])
    ensures Highest(a, k, n) == Highest(b, k, n)
    ensures Fallback(a, n, k) == Fallback(b, n, k)
  {
    if n > 0 {
      HighestSame(a, b, k, n - 1);
    }
  }

  lemma {:induction false} HighestSplit(layers: seq<Values>, k: string, level: nat, n: nat)
    requires level <= n <= |layers|
    requires forall i | level <= i < n :: k !in layers[i]
    ensures Highest(layers, k, n) == Highest(layers, k, level)
  {
    if level < n {
      HighestSplit(layers, k, level, n - 1);
    }
  }

  /** The level that now holds `k` is the highest one that does. */
  lemma HighestIs(layers: seq<Values>, k: string, level: nat)
    requires level < |layers| && k in layers[level] && Highest(layers, k, |layers|) <= level
    ensures Fallback(layers, |layers|, k) == Some(ValueNode(level, layers[level][k]))
  {}

  lemma UpdateLayeredAt(s: State, level: nat, val: Values, k: string)
    requires level < |s.layers| && LayeredAt(s.layers, s.cache, k)
    ensures var layers := StepLayers(s.layers, Update(level, val));
            LayeredAt(layers, PutAll(s.cache, level, val), k)
  {
    var layers := StepLayers(s.layers, Update(level, val));
    if k in val {
      var i := Highest(s.layers, k, |s.layers|);
      if i <= level {
        assert Highest(layers, k, |layers|) <= level;
        HighestIs(layers, k, level);
      } else {
        assert k in layers[i] && forall j | i < j < |layers| :: layers[j] == s.layers[j];
      }
    } else {
      HighestSame(s.layers, layers, k, |layers|);
    }
  }

  lemma DeleteLayeredAt(s: State, level: nat, keys: set<string>, k: string)
    requires level < |s.layers| && LayeredAt(s.layers, s.cache, k)
    ensures var layers := StepLayers(s.layers, Delete(level, keys));
            LayeredAt(layers, DropAll(layers, s.cache, level, keys), k)
  {
    var layers := StepLayers(s.layers, Delete(level, keys));
    var i := Highest(s.layers, k, |s.layers|);
    if k in keys && i == level {
      HighestSplit(layers, k, level, |layers|);
    } else if k in keys {
      assert Highest(layers, k, |layers|) == i by {
        assert i > level ==> k in layers[i];
        if i < level {
          HighestSplit(layers, k, i + 1, |layers|);
        }
      }
    } else {
      HighestSame(s.layers, layers, k, |layers|);
    }
  }

  /** After a sync, a key is still layered unless its level lost it from the cache only. */
  lemma SyncLayeredAt(s: State, level: nat, val: Values, k: string)
    requires level < |s.layers| && LayeredAt(s.layers, s.cache, k) && val != map[]
    ensures var s' := Step(s, Sync(level, val));
            LayeredAt(s'.layers, s'.cache, k) <==> k !in Missing(s.cache, level, val)
  {
    var layers := StepLayers(s.layers, Sync(level, val));
    var put := PutAll(s.cache, level, val);
    var missing := Missing(s.cache, level, val);
    UpdateLayeredAt(s, level, val, k);
    assert LayeredAt(layers, put, k);
    if k in missing {
      assert k in layers[level] && Highest(layers, k, level) < level <= Highest(layers, k, |layers|);
    }
  }

  /** A sync covers its level when it mentions every key for which the level is the highest. */
  ghost predicate Covers(s: State, level: nat, val: Values)
    requires level < |s.layers|
  {
    val == map[] ||
    forall k | k in s.layers[level] && IsKey(k, SEPARATOR) && Highest(s.layers, k, |s.layers|) == level :: k in val
  }

  lemma CoversMissing(s: State, level: nat, val: Values)
    requires level < |s.layers| && Layered(s.layers, s.cache) && val != map[]
    ensures Covers(s, level, val) <==> Missing(s.cache, level, val) == {}
  {
    forall k ensures k in Missing(s.cache, level, val) <==>
        k in s.layers[level] && IsKey(k, SEPARATOR) && Highest(s.layers, k, |s.layers|) == level && k !in val
    {
      assert LayeredAt(s.layers, s.cache, k);
    }
  }

  /** Layering is kept by every update and delete, and by exactly the syncs that cover their level. */
  lemma StepLayered(s: State, e: Event)
    requires e.level < |s.layers| && Layered(s.layers, s.cache)
    ensures var s' := Step(s, e);
            Layered(s'.layers, s'.cache) <==> (e.Sync? ==> Covers(s, e.level, e.val))
  {
    var s' := Step(s, e);
    match e {
      case Update(level, val) =>
        forall k ensures LayeredAt(s'.layers, s'.cache, k) {
          assert LayeredAt(s.layers, s.cache, k);
          UpdateLayeredAt(s, level, val, k);
        }
      case Delete(level, keys) =>
        forall k ensures LayeredAt(s'.layers, s'.cache, k) {
          assert LayeredAt(s.layers, s.cache, k);
          DeleteLayeredAt(s, level, keys, k);
        }
      case Sync(level, val) =>
        if val == map[] {
          assert s.layers[level] + val == s.layers[level];
          assert s'.layers == s.layers;
        } else {
          CoversMissing(s, level, val);
          forall k ensures LayeredAt(s'.layers, s'.cache, k) <==> k !in Missing(s.cache, level, val) {
            assert LayeredAt(s.layers, s.cache, k);
            SyncLayeredAt(s, level, val, k);
          }
        }
    }
  }

  // ----- grounding -----

  /**
   * Any sync of a layered cache, key by key: a key that its own level holds highest and that the sync leaves out falls
   * back to the levels below, and every other key has the highest level's value.
   */
  lemma SyncExact(s: State, level: nat, val: Values, k: string)
    requires level < |s.layers| && Layered(s.layers, s.cache) && val != map[]
    ensures var s' := Step(s, Sync(level, val));
      Lookup(s'.cache, k) ==
        if !IsKey(k, SEPARATOR) then None
        else if k !in val && Highest(s.layers, k, |s.layers|) == level then Fallback(s.layers, level, k)
        else Fallback(s'.layers, |s'.layers|, k)
  {
    var e := Sync(level, val);
    var s' := Step(s, e);
    assert LayeredAt(s.layers, s.cache, k);
    SyncLayeredAt(s, level, val, k);
    HighestSame(s.layers, s'.layers, k, level);
    if k !in val {
      assert forall i | 0 <= i < |s.layers| :: k in s.layers[i] <==> k in s'.layers[i];
      HighestEqual(s.layers, s'.layers, k, |s.layers|);
    }
  }

  lemma {:induction false} HighestEqual(a: seq<Values>, b: seq<Values>, k: string, n: nat)
    requires n <= |a| == |b|
    requires forall i | 0 <= i < n :: (k in a[i] <==> k in b[i]) && (k in a[i] ==> a[i][k] == b[i][k])
    ensures Highest(a, k, n) == Highest(b, k, n) && Fallback(a, n, k) == Fallback(b, n, k)
  {
    if n > 0 {
      HighestEqual(a, b, k, n - 1);
    }
  }

  /** A sync that does not mention a key its level holds: the wrapper keeps the key, the cache loses it. */
  lemma SyncLosesKey()
    ensures var s := State([map["a" := "1"]], map["a" := ValueNode(0, "1")]);
      && Layered(s.layers, s.cache)
      && !Covers(s, 0, map["b" := "2"])
      && !Layered(Step(s, Sync(0, map["b" := "2"])).layers, Step(s, Sync(0, map["b" := "2"])).cache)
  {
    var layers, cache := [map["a" := "1"]], map["a" := ValueNode(0, "1")];
    var s, e := State(layers, cache), Sync(0, map["b" := "2"]);
    assert IsKey("a", SEPARATOR) by {
      Strings.SplitHead("a", "", SEPARATOR);
    }
    forall k ensures LayeredAt(layers, cache, k) {
      assert Highest(layers, k, 0) == -1;
      assert k in layers[0] <==> k == "a";
    }
    assert Layered(layers, cache);
    assert "a" in layers[0] && Highest(layers, "a", 1) == 0;
    assert "a" !in e.val && "b" in e.val;
    StepLayered(s, e);
  }

  lemma PutGrounded(layers: seq<Values>, cache: Cache, level: nat, val: Values)
    requires level < |layers| && Grounded(layers, cache)
    ensures Grounded(layers[level := layers[level] + val], PutAll(cache, level, val))
  {
    var layers', put := layers[level := layers[level] + val], PutAll(cache, level, val);
    forall k | k in put ensures GroundedAt(layers', put[k], k) {
      assert k in cache ==> GroundedAt(layers, cache[k], k);
    }
  }

  /** Dropping is safe when the cached values were grounded, at worst in layers that still held the dropped keys. */
  lemma DropGrounded(layers: seq<Values>, cache: Cache, level: nat, keys: set<string>)
    requires level < |layers|
    requires forall k | k in cache :: IsKey(k, SEPARATOR)
    requires forall k | k in cache && !(k in keys && cache[k].level == level) :: GroundedAt(layers, cache[k], k)
    ensures Grounded(layers, DropAll(layers, cache, level, keys))
  {
    var dropped := DropAll(layers, cache, level, keys);
    forall k | k in dropped ensures GroundedAt(layers, dropped[k], k) {}
  }

  /** Over every event, arbitrary syncs included, a cached value is what its level holds. */
  lemma StepGrounded(s: State, e: Event)
    requires e.level < |s.layers| && Grounded(s.layers, s.cache)
    ensures var s' := Step(s, e); Grounded(s'.layers, s'.cache)
  {
    var s' := Step(s, e);
    match e {
      case Update(level, val) =>
        PutGrounded(s.layers, s.cache, level, val);
      case Delete(level, keys) =>
        forall k | k in s.cache && !(k in keys && s.cache[k].level == level)
          ensures GroundedAt(s'.layers, s.cache[k], k)
        {
          assert GroundedAt(s.layers, s.cache[k], k);
        }
        forall k | k in s.cache ensures IsKey(k, SEPARATOR) {
          assert GroundedAt(s.layers, s.cache[k], k);
        }
        DropGrounded(s'.layers, s.cache, level, keys);
      case Sync(level, val) =>
        PutGrounded(s.layers, s.cache, level, val);
        if val == map[] {
          assert s.layers[level] + val == s.layers[level];
        } else {
          var put := PutAll(s.cache, level, val);
          forall k | k in put ensures IsKey(k, SEPARATOR) {
            assert GroundedAt(s'.layers, put[k], k);
          }
          DropGrounded(s'.layers, put, level, Missing(s.cache, level, val));
        }
    }
  }

  // ----- the initial sync -----

  /** A level put over a cache, whatever the cache holds. */
  function Overlay(cache: Cache, level: int, val: Values): Cache {
    cache + map k | k in val && IsKey(k, SEPARATOR) :: ValueNode(level, val[k])
  }

  /** Levels in ascending order, each put over the ones below. */
  function InitialCache(layers: seq<Values>, n: nat): Cache
    requires n <= |layers|
  {
    if n == 0 then map[] else Overlay(InitialCache(layers, n - 1), n - 1, layers[n - 1])
  }

  lemma {:induction false} InitialAt(layers: seq<Values>, n: nat, k: string)
    requires n <= |layers|
    ensures Lookup(InitialCache(layers, n), k) == if IsKey(k, SEPARATOR) then Fallback(layers, n, k) else None
  {
    if n > 0 {
      InitialAt(layers, n - 1, k);
    }
  }

  // ----- runs -----

  ghost predicate IsRun(s: State, es: seq<Event>) {
    forall i | 0 <= i < |es| :: es[i].level < |s.layers|
  }

  function Run(s: State, es: seq<Event>): (r: State)
    requires IsRun(s, es)
    ensures |r.layers| == |s.layers|
  {
    if es == [] then s
    else Step(Run(s, es[..|es| - 1]), es[|es| - 1])
  }

  /** Every sync of the run covers its level when it happens. */
  ghost predicate AllCovering(s: State, es: seq<Event>)
    requires IsRun(s, es)
  {
    forall i | 0 <= i < |es| && es[i].Sync? :: Covers(Run(s, es[..i]), es[i].level, es[i].val)
  }

  /** The merged cache of any run of updates, deletes and covering syncs holds the highest level's values. */
  lemma {:induction false} RunLayered(layers: seq<Values>, es: seq<Event>)
    requires var s := State(layers, InitialCache(layers, |layers|)); IsRun(s, es) && AllCovering(s, es)
    ensures var s := Run(State(layers, InitialCache(layers, |layers|)), es); Layered(s.layers, s.cache)
  {
    var s := State(layers, InitialCache(layers, |layers|));
    if es == [] {
      forall k ensures LayeredAt(layers, s.cache, k) {
        InitialAt(layers, |layers|, k);
      }
    } else {
      var n := |es| - 1;
      assert forall i | 0 <= i < n :: es[..n][..i] == es[..i];
      RunLayered(layers, es[..n]);
      StepLayered(Run(s, es[..n]), es[n]);
    }
  }

  /** In any run at all, a cached level and value are what that level's wrapper holds. */
  lemma {:induction false} RunGrounded(layers: seq<Values>, es: seq<Event>)
    requires IsRun(State(layers, InitialCache(layers, |layers|)), es)
    ensures var s := Run(State(layers, InitialCache(layers, |layers|)), es); Grounded(s.layers, s.cache)
  {
    var s := State(layers, InitialCache(layers, |layers|));
    if es == [] {
      forall k | k in s.cache ensures GroundedAt(layers, s.cache[k], k) {
        InitialAt(layers, |layers|, k);
      }
    } else {
      RunGrounded(layers, es[..|es| - 1]);
      StepGrounded(Run(s, es[..|es| - 1]), es[|es| - 1]);
    }
  }
}
