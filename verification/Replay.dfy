/** What the watchers of the merged cache are told, and what they can rebuild from it. */
module Replay {
  import opened Wrappers
  import opened PrefixTrees
  import opened Layers

  /** One call of `OnUpdate` followed by one of `OnDelete`. */
  datatype Notice = Notice(updates: Values, deletes: set<string>)

  /** Entries put into the cache whose value is new or changed. */
  function PutNotice(cache: Cache, level: int, val: Values): Values {
    map k | k in val && (k in cache ==> cache[k].level <= level && cache[k].value != val[k]) :: val[k]
  }

  /** Dropped keys that fall back to another value. */
  function DropUpdates(layers: seq<Values>, cache: Cache, level: nat, keys: set<string>): Values
    requires level <= |layers|
  {
    map k | k in cache && k in keys && cache[k].level == level
            && Fallback(layers, level, k).Some? && Fallback(layers, level, k).value.value != cache[k].value
          :: Fallback(layers, level, k).value.value
  }

  /** Dropped keys that no lower level has. */
  function DropDeletes(layers: seq<Values>, cache: Cache, level: nat, keys: set<string>): set<string>
    requires level <= |layers|
  {
    set k | k in cache && k in keys && cache[k].level == level && Fallback(layers, level, k).None?
  }

  function StepNotice(layers: seq<Values>, cache: Cache, e: Event): Notice
    requires e.level < |layers|
  {
    match e
    case Update(level, val) => Notice(PutNotice(cache, level, val), {})
    case Delete(level, keys) => Notice(DropUpdates(layers, cache, level, keys), DropDeletes(layers, cache, level, keys))
    case Sync(level, val) =>
      if val == map[] then Notice(map[], {}) else
      var (put, missing) := (PutAll(cache, level, val), Missing(cache, level, val));
      Notice(PutNotice(cache, level, val) + DropUpdates(layers, put, level, missing),
             DropDeletes(layers, put, level, missing))
  }

  /** A watcher that applies what it is told. */
  function Apply(w: Values, n: Notice): Values {
    w + n.updates - n.deletes
  }

  function ViewOf(cache: Cache): Values {
    map k | k in cache :: cache[k].value
  }

  /** The entries under keys that the cache can hold. */
  function KeysOnly(w: Values): Values {
    map k | k in w && IsKey(k, SEPARATOR) :: w[k]
  }

  predicate CacheKeys(cache: Cache) {
    forall k | k in cache :: IsKey(k, SEPARATOR)
  }

  lemma PutReplay(w: Values, cache: Cache, level: int, val: Values)
    requires CacheKeys(cache) && KeysOnly(w) == ViewOf(cache)
    ensures CacheKeys(PutAll(cache, level, val))
    ensures KeysOnly(w + PutNotice(cache, level, val)) == ViewOf(PutAll(cache, level, val))
  {
    var w', put := w + PutNotice(cache, level, val), PutAll(cache, level, val);
    forall k ensures k in KeysOnly(w') <==> k in ViewOf(put) {
      assert k in KeysOnly(w) <==> k in ViewOf(cache);
    }
    forall k | k in ViewOf(put) ensures KeysOnly(w')[k] == ViewOf(put)[k] {
      assert k in cache ==> KeysOnly(w)[k] == cache[k].value;
    }
  }

  lemma DropReplay(w: Values, layers: seq<Values>, cache: Cache, level: nat, keys: set<string>)
    requires level <= |layers| && CacheKeys(cache) && KeysOnly(w) == ViewOf(cache)
    ensures KeysOnly(w + DropUpdates(layers, cache, level, keys) - DropDeletes(layers, cache, level, keys))
         == ViewOf(DropAll(layers, cache, level, keys))
  {
    var w' := w + DropUpdates(layers, cache, level, keys) - DropDeletes(layers, cache, level, keys);
    var dropped := DropAll(layers, cache, level, keys);
    forall k ensures k in KeysOnly(w') <==> k in ViewOf(dropped) {
      assert k in KeysOnly(w) <==> k in ViewOf(cache);
    }
    forall k | k in ViewOf(dropped) ensures KeysOnly(w')[k] == ViewOf(dropped)[k] {
      assert KeysOnly(w)[k] == cache[k].value;
    }
  }

  lemma GroundedKeys(layers: seq<Values>, cache: Cache)
    requires Grounded(layers, cache)
    ensures CacheKeys(cache)
  {
    forall k | k in cache ensures IsKey(k, SEPARATOR) {
      assert GroundedAt(layers, cache[k], k);
    }
  }

  lemma SyncReplay(w: Values, layers: seq<Values>, cache: Cache, level: nat, val: Values)
    requires level < |layers| && CacheKeys(cache) && KeysOnly(w) == ViewOf(cache) && val != map[]
    ensures KeysOnly(Apply(w, StepNotice(layers, cache, Sync(level, val))))
         == ViewOf(StepCache(layers, cache, Sync(level, val)))
  {
    var put, missing := PutAll(cache, level, val), Missing(cache, level, val);
    var told, fallen := PutNotice(cache, level, val), DropUpdates(layers, put, level, missing);
    PutReplay(w, cache, level, val);
    DropReplay(w + told, layers, put, level, missing);
    MergeAssociative(w, told, fallen);
  }

  lemma MergeAssociative(a: Values, b: Values, c: Values)
    ensures a + (b + c) == a + b + c
  {}

  /** One event: the watcher's entries under cacheable keys stay those of the cache. */
  lemma StepReplay(layers: seq<Values>, cache: Cache, e: Event, w: Values)
    requires e.level < |layers| && CacheKeys(cache) && KeysOnly(w) == ViewOf(cache)
    ensures KeysOnly(Apply(w, StepNotice(layers, cache, e))) == ViewOf(StepCache(layers, cache, e))
  {
    match e {
      case Update(level, val) =>
        PutReplay(w, cache, level, val);
        NothingDeleted(w + PutNotice(cache, level, val));
      case Delete(level, keys) =>
        DropReplay(w, layers, cache, level, keys);
      case Sync(level, val) =>
        if val == map[] {
          NothingDeleted(w);
          assert w + map[] == w;
        } else {
          SyncReplay(w, layers, cache, level, val);
        }
    }
  }

  /**
   * A notice is the difference that the event makes to the cache: on cacheable keys, what is announced as updated is
   * what is new or changed, with the new value, and what is announced as deleted is what is gone.
   */
  lemma NoticeIsDifference(layers: seq<Values>, cache: Cache, e: Event, k: string)
    requires e.level < |layers| && IsKey(k, SEPARATOR)
    ensures var (n, was, now) := (StepNotice(layers, cache, e), ViewOf(cache), ViewOf(StepCache(layers, cache, e)));
      && (k in n.updates <==> k in now && (k in was ==> was[k] != now[k]))
      && (k in n.updates ==> n.updates[k] == now[k])
      && (k in n.deletes <==> k in was && k !in now)
  {}

  lemma NothingDeleted(w: Values)
    ensures w - {} == w
  {}

  /** The keys an event may announce. */
  function Announced(e: Event): set<string> {
    if e.Delete? then {} else e.val.Keys
  }

  /** What a watcher is told beyond the cache's keys. */
  lemma Uncacheable(layers: seq<Values>, cache: Cache, e: Event, k: string)
    requires e.level < |layers| && CacheKeys(cache) && !IsKey(k, SEPARATOR)
    ensures k in Apply(ViewOf(cache), StepNotice(layers, cache, e)) <==> k in Announced(e)
  {}

  /** One event, exactly: a watcher equal to the cache stays equal iff the event announces no uncacheable key. */
  lemma StepReplayExact(layers: seq<Values>, cache: Cache, e: Event)
    requires e.level < |layers| && CacheKeys(cache)
    ensures Apply(ViewOf(cache), StepNotice(layers, cache, e)) == ViewOf(StepCache(layers, cache, e))
            <==> forall k | k in Announced(e) :: IsKey(k, SEPARATOR)
  {
    var w := ViewOf(cache);
    var w', view' := Apply(w, StepNotice(layers, cache, e)), ViewOf(StepCache(layers, cache, e));
    assert KeysOnly(w) == w;
    StepReplay(layers, cache, e, w);
    forall k | !IsKey(k, SEPARATOR) ensures k in w' <==> k in Announced(e) {
      Uncacheable(layers, cache, e, k);
    }
    if forall k | k in Announced(e) :: IsKey(k, SEPARATOR) {
      assert KeysOnly(w') == w';
    } else {
      var k :| k in Announced(e) && !IsKey(k, SEPARATOR);
      assert k in w' && k !in view';
    }
  }

  /** An update of a key with an empty segment reaches the watcher but not the cache. */
  lemma EmptyKeyAnnounced()
    ensures var e := Update(0, map["" := "1"]);
      Apply(ViewOf(map[]), StepNotice([e.val], map[], e)) != ViewOf(StepCache([e.val], map[], e))
  {
    var e := Update(0, map["" := "1"]);
    assert !IsKey("", SEPARATOR) by {
      Strings.SplitHead("", "", SEPARATOR);
      assert Strings.Split("", SEPARATOR)[0] == "";
    }
    StepReplayExact([e.val], map[], e);
    assert "" in Announced(e);
  }

  /** The state of a watcher after the notices of a run. */
  function Watch(s: State, es: seq<Event>, w: Values): Values
    requires IsRun(s, es)
  {
    if es == [] then w else
    var (before, e) := (es[..|es| - 1], es[|es| - 1]);
    var t := Run(s, before);
    Apply(Watch(s, before, w), StepNotice(StepLayers(t.layers, e), t.cache, e))
  }

  /** A watcher that starts from a snapshot and applies only its notices keeps up with the cache. */
  lemma {:induction false} RunReplay(s: State, es: seq<Event>)
    requires IsRun(s, es) && Grounded(s.layers, s.cache)
    ensures var t := Run(s, es);
            Grounded(t.layers, t.cache) && KeysOnly(Watch(s, es, ViewOf(s.cache))) == ViewOf(t.cache)
  {
    if es == [] {
      GroundedKeys(s.layers, s.cache);
    } else {
      var before, e := es[..|es| - 1], es[|es| - 1];
      var t := Run(s, before);
      RunReplay(s, before);
      GroundedKeys(t.layers, t.cache);
      StepReplay(StepLayers(t.layers, e), t.cache, e, Watch(s, before, ViewOf(s.cache)));
      StepGrounded(t, e);
    }
  }

  /** With well-formed keys throughout, the watcher's map is the cache's map after every event. */
  lemma {:induction false} RunReplayEqual(s: State, es: seq<Event>)
    requires IsRun(s, es) && Grounded(s.layers, s.cache)
    requires forall i, k | 0 <= i < |es| && k in Announced(es[i]) :: IsKey(k, SEPARATOR)
    ensures Watch(s, es, ViewOf(s.cache)) == ViewOf(Run(s, es).cache)
  {
    if es != [] {
      var before, e := es[..|es| - 1], es[|es| - 1];
      RunReplayEqual(s, before);
      var t := Run(s, before);
      RunReplay(s, before);
      StepGrounded(t, e);
      GroundedKeys(t.layers, t.cache);
      GroundedKeys(Step(t, e).layers, Step(t, e).cache);
      StepReplayExact(StepLayers(t.layers, e), t.cache, e);
    }
  }
}
