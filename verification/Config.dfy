/** The event handlers of the layered configuration, on the heap. */
module Config {
  import opened Wrappers
  import opened Strings
  import opened PrefixTrees
  import opened Layers
  import opened Replay

  lemma SetOfSnoc(ks: seq<string>, k: string)
    ensures SetOf(ks + [k]) == SetOf(ks) + {k}
  {}

  lemma SetOfPrefix(ks: seq<string>, i: nat)
    requires i < |ks|
    ensures SetOf(ks[..i + 1]) == SetOf(ks[..i]) + {ks[i]}
  {
    assert ks[..i + 1] == ks[..i] + [ks[i]];
    SetOfSnoc(ks[..i], ks[i]);
  }

  function SetOf(ks: seq<string>): set<string> {
    set k | k in ks
  }

  /** The wrapper around one source: a copy of what the source has announced. */
  class SourceWrapper {
    var cache: Values

    constructor ()
      ensures cache == map[]
    {
      cache := map[];
    }

    method Get(key: string) returns (v: Option<string>)
      ensures v == if key in cache then Some(cache[key]) else None
    {
      if key in cache {
        return Some(cache[key]);
      }
      return None;
    }

    /** The storing loop of `OnUpdate`, `OnSync` and `Sync`. */
    method Store(val: Values)
      modifies this
      ensures cache == old(cache) + val
    {
      var rest := val.Keys;
      while rest != {}
        invariant rest <= val.Keys
        invariant cache == old(cache) + (val - rest)
        decreases rest
      {
        var k :| k in rest;
        cache := cache[k := val[k]];
        rest := rest - {k};
      }
    }

    method OnDelete(keys: seq<string>)
      modifies this
      ensures cache == old(cache) - SetOf(keys)
    {
      for i := 0 to |keys|
        invariant cache == old(cache) - SetOf(keys[..i])
      {
        cache := cache - {keys[i]};
        SetOfPrefix(keys, i);
      }
      assert keys[..|keys|] == keys;
    }
  }

  /** One call that the notifier passes on to its watchers. */
  datatype Call = OnUpdate(val: Values) | OnDelete(keys: seq<string>)

  /** The notifier drops empty events. */
  function Calls(updates: Values, deletes: seq<string>): seq<Call> {
    (if updates == map[] then [] else [OnUpdate(updates)])
    + (if deletes == [] then [] else [OnDelete(deletes)])
  }

  /** A watcher that applies the calls it receives. */
  function Receive(w: Values, calls: seq<Call>): Values
    decreases |calls|
  {
    if calls == [] then w else
    match calls[0]
    case OnUpdate(val) => Receive(w + val, calls[1..])
    case OnDelete(keys) => Receive(w - SetOf(keys), calls[1..])
  }

  /** The calls of one event do what its notice says, dropped empty calls included. */
  lemma CallsApply(w: Values, updates: Values, deletes: seq<string>)
    ensures Receive(w, Calls(updates, deletes)) == Apply(w, Notice(updates, SetOf(deletes)))
  {
    var del := if deletes == [] then [] else [OnDelete(deletes)];
    var w' := w + updates;
    assert deletes == [] ==> SetOf(deletes) == {};
    assert Receive(w', del) == w' - SetOf(deletes);
    if updates == map[] {
      assert w' == w && Calls(updates, deletes) == del;
    } else {
      assert Calls(updates, deletes)[1..] == del;
    }
  }

  // ----- value-level steps of the loops -----

  lemma PutStep(cache: Cache, level: int, done: Values, k: string, v: string)
    requires k !in done
    ensures var put := PutAll(cache, level, done);
            PutAll(cache, level, done[k := v]) ==
              if (k in put ==> put[k].level <= level) && IsKey(k, SEPARATOR) then put[k := ValueNode(level, v)] else put
  {}

  lemma PutNoticeStep(cache: Cache, level: int, done: Values, k: string, v: string)
    requires k !in done
    ensures var put := PutAll(cache, level, done);
            PutNotice(cache, level, done[k := v]) ==
              if k in put ==> put[k].level <= level && put[k].value != v
              then PutNotice(cache, level, done)[k := v] else PutNotice(cache, level, done)
  {
    assert Lookup(PutAll(cache, level, done), k) == Lookup(cache, k);
  }

  /** A key still at `level` after some drops has not been dropped yet. */
  lemma DropHit(layers: seq<Values>, cache: Cache, level: nat, keys: set<string>, k: string)
    requires level <= |layers|
    ensures var dropped := DropAll(layers, cache, level, keys);
            k in dropped && dropped[k].level == level <==> k in cache && cache[k].level == level && k !in keys
    ensures var dropped := DropAll(layers, cache, level, keys);
            k in dropped && dropped[k].level == level ==> dropped[k] == cache[k]
  {}

  lemma DropStep(layers: seq<Values>, cache: Cache, level: nat, keys: set<string>, k: string)
    requires level <= |layers|
    ensures var dropped, f := DropAll(layers, cache, level, keys), Fallback(layers, level, k);
            DropAll(layers, cache, level, keys + {k}) ==
              if !(k in dropped && dropped[k].level == level) then dropped
              else if f.Some? then dropped[k := f.value] else dropped - {k}
  {
    DropHit(layers, cache, level, keys, k);
  }

  lemma DropUpdatesStep(layers: seq<Values>, cache: Cache, level: nat, keys: set<string>, k: string)
    requires level <= |layers|
    ensures var dropped, f := DropAll(layers, cache, level, keys), Fallback(layers, level, k);
            DropUpdates(layers, cache, level, keys + {k}) ==
              if k in dropped && dropped[k].level == level && f.Some? && f.value.value != dropped[k].value
              then DropUpdates(layers, cache, level, keys)[k := f.value.value]
              else DropUpdates(layers, cache, level, keys)
  {
    DropHit(layers, cache, level, keys, k);
  }

  lemma DropDeletesStep(layers: seq<Values>, cache: Cache, level: nat, keys: set<string>, k: string)
    requires level <= |layers|
    ensures var dropped, f := DropAll(layers, cache, level, keys), Fallback(layers, level, k);
            DropDeletes(layers, cache, level, keys + {k}) ==
              if k in dropped && dropped[k].level == level && f.None?
              then DropDeletes(layers, cache, level, keys) + {k}
              else DropDeletes(layers, cache, level, keys)
  {
    DropHit(layers, cache, level, keys, k);
  }

  /** The first levels hold what was fetched from them, the others nothing. */
  ghost predicate Fetched(layers: seq<Values>, fetched: seq<Option<Values>>, n: nat) {
    && n <= |layers| == |fetched|
    && (forall i | 0 <= i < n :: fetched[i].Some?)
    && forall i | 0 <= i < |layers| :: layers[i] == if i < n then fetched[i].value else map[]
  }

  /** The caches passed through when the fetched levels are put over each other, from the empty one on. */
  ghost predicate Overlays(views: seq<Cache>, fetched: seq<Option<Values>>, n: nat) {
    && |views| == n + 1 && n <= |fetched| && views[0] == map[]
    && forall i | 0 <= i < n :: fetched[i].Some? && views[i + 1] == Overlay(views[i], i, fetched[i].value)
  }

  lemma {:induction false} OverlaysInitial(
    views: seq<Cache>, fetched: seq<Option<Values>>, layers: seq<Values>, n: nat)
    requires |views| > n && Overlays(views[..n + 1], fetched, n)
    requires n <= |layers| && forall i | 0 <= i < n :: layers[i] == fetched[i].value
    ensures views[n] == InitialCache(layers, n)
  {
    if n > 0 {
      assert views[..n] == views[..n + 1][..n];
      OverlaysInitial(views, fetched, layers, n - 1);
    }
  }

  /** What `sync` has done after the first levels. */
  ghost predicate Progress(
    first: seq<Call>, calls: seq<Call>, layers: seq<Values>, views: seq<Cache>,
    fetched: seq<Option<Values>>, n: nat, sent: seq<Call>)
  {
    && Fetched(layers, fetched, n) && Overlays(views, fetched, n)
    && calls == first + sent && Tells(sent, views[n])
  }

  lemma ProgressStart(calls: seq<Call>, fetched: seq<Option<Values>>, layers: seq<Values>)
    requires Fetched(layers, fetched, 0)
    ensures Progress(calls, calls, layers, [map[]], fetched, 0, [])
  {
    assert calls + [] == calls && KeysOnly(map[]) == map[] == ViewOf(map[]);
  }

  lemma ProgressNext(
    first: seq<Call>, calls: seq<Call>, layers: seq<Values>, views: seq<Cache>,
    fetched: seq<Option<Values>>, n: nat, sent: seq<Call>)
    requires Progress(first, calls, layers, views, fetched, n, sent) && n < |layers| && fetched[n].Some?
    ensures layers[n] == map[]
    ensures var (v, more) := (fetched[n].value, Calls(OverlayNotice(views[n], fetched[n].value), []));
      Progress(first, calls + more, layers[n := v], views + [Overlay(views[n], n, v)], fetched, n + 1, sent + more)
  {
    var more := Calls(OverlayNotice(views[n], fetched[n].value), []);
    CallsAssoc(first, sent, more);
    TellsMore(sent, views[n], n, fetched[n].value);
  }

  lemma ProgressEnd(
    first: seq<Call>, calls: seq<Call>, layers: seq<Values>, views: seq<Cache>,
    fetched: seq<Option<Values>>, n: nat, sent: seq<Call>)
    requires Progress(first, calls, layers, views, fetched, n, sent)
    ensures views[n] == InitialCache(layers, n)
    ensures KeysOnly(Receive(map[], sent)) == ViewOf(views[n])
  {
    assert views[..n + 1] == views;
    OverlaysInitial(views, fetched, layers, n);
  }

  /** What one turn of the storing loop does with a key. */
  ghost predicate KeyPut(level: nat, k: string, v: string, view: Cache, notify: Values, view': Cache, notify': Values) {
    && view' == (if (k in view ==> view[k].level <= level) && IsKey(k, SEPARATOR)
                 then view[k := ValueNode(level, v)] else view)
    && notify' == (if k in view ==> view[k].level <= level && view[k].value != v then notify[k := v] else notify)
  }

  /** What the storing loop has done when some keys remain. */
  ghost predicate PutExcept(was: Cache, level: nat, val: Values, rest: set<string>, view: Cache, notify: Values) {
    view == PutAll(was, level, val - rest) && notify == PutNotice(was, level, val - rest)
  }

  lemma PutExceptStep(
    was: Cache, level: nat, val: Values, rest: set<string>, k: string,
    view: Cache, notify: Values, view': Cache, notify': Values)
    requires k in rest && rest <= val.Keys && PutExcept(was, level, val, rest, view, notify)
    requires KeyPut(level, k, val[k], view, notify, view', notify')
    ensures PutExcept(was, level, val, rest - {k}, view', notify')
  {
    assert val - (rest - {k}) == (val - rest)[k := val[k]];
    PutStep(was, level, val - rest, k, val[k]);
    PutNoticeStep(was, level, val - rest, k, val[k]);
  }

  /** What one turn of the dropping loop does with a key. */
  ghost predicate KeyDropped(
    layers: seq<Values>, level: nat, k: string,
    view: Cache, updates: Values, deletes: seq<string>, view': Cache, updates': Values, deletes': seq<string>)
    requires level <= |layers|
  {
    var f := Fallback(layers, level, k);
    if k in view && view[k].level == level then
      && view' == (if f.Some? then view[k := f.value] else view - {k})
      && updates' == (if f.Some? && f.value.value != view[k].value then updates[k := f.value.value] else updates)
      && deletes' == (if f.None? then deletes + [k] else deletes)
    else view' == view && updates' == updates && deletes' == deletes
  }

  /** What the dropping loop has done after a set of keys. */
  ghost predicate Dropped(
    layers: seq<Values>, was: Cache, level: nat, done: set<string>, view: Cache, updates: Values, deletes: seq<string>)
    requires level <= |layers|
  {
    && view == DropAll(layers, was, level, done)
    && updates == DropUpdates(layers, was, level, done)
    && SetOf(deletes) == DropDeletes(layers, was, level, done)
  }

  lemma DroppedStep(
    layers: seq<Values>, was: Cache, level: nat, done: set<string>, k: string,
    view: Cache, updates: Values, deletes: seq<string>, view': Cache, updates': Values, deletes': seq<string>)
    requires level <= |layers| && Dropped(layers, was, level, done, view, updates, deletes)
    requires KeyDropped(layers, level, k, view, updates, deletes, view', updates', deletes')
    ensures Dropped(layers, was, level, done + {k}, view', updates', deletes')
  {
    DropStep(layers, was, level, done, k);
    DropUpdatesStep(layers, was, level, done, k);
    DropDeletesStep(layers, was, level, done, k);
    SetOfSnoc(deletes, k);
  }

  lemma DropNothing(layers: seq<Values>, cache: Cache, level: nat)
    requires level <= |layers|
    ensures DropAll(layers, cache, level, {}) == cache
    ensures DropUpdates(layers, cache, level, {}) == map[] && DropDeletes(layers, cache, level, {}) == {}
  {}

  /** The entries a level of the initial sync announces. */
  function OverlayNotice(cache: Cache, val: Values): Values {
    map k | k in val && (k in cache ==> cache[k].value != val[k]) :: val[k]
  }

  lemma CallsAssoc(a: seq<Call>, b: seq<Call>, c: seq<Call>)
    ensures a + (b + c) == a + b + c
  {}

  lemma {:induction false} ReceiveAppend(w: Values, a: seq<Call>, b: seq<Call>)
    ensures Receive(w, a + b) == Receive(Receive(w, a), b)
    decreases |a|
  {
    if a == [] {
      assert a + b == b;
    } else {
      assert (a + b)[1..] == a[1..] + b;
      ReceiveAppend(if a[0].OnUpdate? then w + a[0].val else w - SetOf(a[0].keys), a[1..], b);
    }
  }

  /** A watcher that starts from nothing and receives the calls has the cache. */
  ghost predicate Tells(sent: seq<Call>, view: Cache) {
    CacheKeys(view) && KeysOnly(Receive(map[], sent)) == ViewOf(view)
  }

  lemma OverlayReplay(w: Values, view: Cache, level: int, val: Values)
    requires CacheKeys(view) && KeysOnly(w) == ViewOf(view)
    ensures CacheKeys(Overlay(view, level, val))
    ensures KeysOnly(w + OverlayNotice(view, val)) == ViewOf(Overlay(view, level, val))
  {
    var w', over := w + OverlayNotice(view, val), Overlay(view, level, val);
    forall k | IsKey(k, SEPARATOR) ensures k in w' <==> k in over {
      assert k in KeysOnly(w) <==> k in ViewOf(view);
    }
    forall k | k in over ensures w'[k] == over[k].value {
      assert k in view ==> KeysOnly(w)[k] == view[k].value;
    }
  }

  lemma TellsMore(sent: seq<Call>, view: Cache, level: int, val: Values)
    requires Tells(sent, view)
    ensures Tells(sent + Calls(OverlayNotice(view, val), []), Overlay(view, level, val))
  {
    var w := Receive(map[], sent);
    ReceiveAppend(map[], sent, Calls(OverlayNotice(view, val), []));
    CallsApply(w, OverlayNotice(view, val), []);
    assert SetOf([]) == {};
    assert Apply(w, Notice(OverlayNotice(view, val), {})) == w + OverlayNotice(view, val);
    OverlayReplay(w, view, level, val);
  }

  /** And nothing is announced that the level does not change: a new key, or a key with another value. */
  lemma OverlayIsDifference(view: Cache, level: int, val: Values, k: string)
    requires IsKey(k, SEPARATOR)
    ensures var (was, now) := (ViewOf(view), ViewOf(Overlay(view, level, val)));
      && (k in OverlayNotice(view, val) <==> k in now && (k in was ==> was[k] != now[k]))
      && (k in OverlayNotice(view, val) ==> OverlayNotice(view, val)[k] == now[k])
  {}

  lemma OverlayStep(cache: Cache, level: int, done: Values, k: string, v: string)
    requires k !in done
    ensures var over := Overlay(cache, level, done);
            Overlay(cache, level, done[k := v]) == if IsKey(k, SEPARATOR) then over[k := ValueNode(level, v)] else over
  {}

  lemma OverlayNoticeStep(cache: Cache, level: int, done: Values, k: string, v: string)
    requires k !in done
    ensures var over := Overlay(cache, level, done);
            OverlayNotice(cache, done[k := v]) ==
              if k in over ==> over[k].value != v
              then OverlayNotice(cache, done)[k := v] else OverlayNotice(cache, done)
  {
    assert Lookup(Overlay(cache, level, done), k) == Lookup(cache, k);
  }

  /** Only the keys cached at the level matter to a drop. */
  /** What one turn of the loop of `sync` does with a key. */
  ghost predicate KeyOverlaid(
    level: nat, k: string, v: string, view: Cache, notify: Values, view': Cache, notify': Values)
  {
    && view' == (if IsKey(k, SEPARATOR) then view[k := ValueNode(level, v)] else view)
    && notify' == (if k in view ==> view[k].value != v then notify[k := v] else notify)
  }

  /** What the loop of `sync` has done when some keys remain. */
  ghost predicate OverlayExcept(was: Cache, level: nat, val: Values, rest: set<string>, view: Cache, notify: Values) {
    view == Overlay(was, level, val - rest) && notify == OverlayNotice(was, val - rest)
  }

  lemma OverlayExceptStep(
    was: Cache, level: nat, val: Values, rest: set<string>, k: string,
    view: Cache, notify: Values, view': Cache, notify': Values)
    requires k in rest && rest <= val.Keys && OverlayExcept(was, level, val, rest, view, notify)
    requires KeyOverlaid(level, k, val[k], view, notify, view', notify')
    ensures OverlayExcept(was, level, val, rest - {k}, view', notify')
  {
    assert val - (rest - {k}) == (val - rest)[k := val[k]];
    OverlayStep(was, level, val - rest, k, val[k]);
    OverlayNoticeStep(was, level, val - rest, k, val[k]);
  }

  lemma DropSame(layers: seq<Values>, cache: Cache, level: nat, a: set<string>, b: set<string>)
    requires level <= |layers|
    requires forall k | k in cache && cache[k].level == level :: k in a <==> k in b
    ensures DropAll(layers, cache, level, a) == DropAll(layers, cache, level, b)
    ensures DropUpdates(layers, cache, level, a) == DropUpdates(layers, cache, level, b)
    ensures DropDeletes(layers, cache, level, a) == DropDeletes(layers, cache, level, b)
  {}

  /** Dropping the keys a sync does not mention drops the missing ones. */
  lemma DropMissing(layers: seq<Values>, cache: Cache, level: nat, val: Values)
    requires level <= |layers|
    ensures var put, missing := PutAll(cache, level, val), Missing(cache, level, val);
            var rest := put.Keys - val.Keys;
            && DropAll(layers, put, level, rest) == DropAll(layers, put, level, missing)
            && DropUpdates(layers, put, level, rest) == DropUpdates(layers, put, level, missing)
            && DropDeletes(layers, put, level, rest) == DropDeletes(layers, put, level, missing)
  {
    var put := PutAll(cache, level, val);
    DropSame(layers, put, level, put.Keys - val.Keys, Missing(cache, level, val));
  }

  class ConfigImpl {
    const source: seq<SourceWrapper>
    const cache: PrefixTree<ValueNode>
    /** The calls made on every watcher, in order. */
    var calls: seq<Call>

    ghost predicate Valid()
      reads this, cache, cache.repr
    {
      cache.Valid() && cache.separator == SEPARATOR
    }

    /** Each level has its own wrapper. */
    ghost predicate Distinct() {
      forall i, j | 0 <= i < j < |source| :: source[i] != source[j]
    }

    /** What the wrappers hold, lowest level first. */
    ghost function Held(): (layers: seq<Values>)
      reads source
      ensures |layers| == |source|
    {
      seq(|source|, i requires 0 <= i < |source| reads source => source[i].cache)
    }

    constructor (source: seq<SourceWrapper>)
      requires forall i, j | 0 <= i < j < |source| :: source[i] != source[j]
      ensures Valid() && Distinct() && fresh(cache) && fresh(cache.repr)
      ensures this.source == source && cache.View() == map[] && calls == []
    {
      this.source := source;
      this.cache := new PrefixTree<ValueNode>(SEPARATOR);
      this.calls := [];
    }

    method Notify(updates: Values, deletes: seq<string>)
      modifies this`calls
      ensures calls == old(calls) + Calls(updates, deletes)
    {
      if updates != map[] {
        calls := calls + [OnUpdate(updates)];
      }
      if deletes != [] {
        calls := calls + [OnDelete(deletes)];
      }
    }

    /** One turn of the loop of `onUpdate` and `onSync`. */
    method PutValue(level: nat, k: string, v: string, notify: Values) returns (notify': Values)
      requires Valid()
      modifies cache, cache.repr
      ensures Valid() && fresh(cache.repr - old(cache.repr))
      ensures KeyPut(level, k, v, old(cache.View()), notify, cache.View(), notify')
    {
      notify' := notify;
      var node := cache.Get(k);
      if node.None? || node.value.level <= level {
        cache.Put(k, ValueNode(level, v));
        if node.None? || node.value.value != v {
          notify' := notify[k := v];
        }
      }
    }

    /** The loop shared by `onUpdate` and `onSync`. */
    method PutValues(level: nat, val: Values) returns (notify: Values)
      requires Valid()
      modifies cache, cache.repr
      ensures Valid() && fresh(cache.repr - old(cache.repr))
      ensures cache.View() == PutAll(old(cache.View()), level, val)
      ensures notify == PutNotice(old(cache.View()), level, val)
    {
      notify := map[];
      ghost var was := cache.View();
      var rest := val.Keys;
      assert val - rest == map[];
      while rest != {}
        invariant rest <= val.Keys && Valid() && fresh(cache.repr - old(cache.repr))
        invariant PutExcept(was, level, val, rest, cache.View(), notify)
        modifies cache, cache.repr
        decreases rest
      {
        var k :| k in rest;
        ghost var view, notify0 := cache.View(), notify;
        notify := PutValue(level, k, val[k], notify);
        PutExceptStep(was, level, val, rest, k, view, notify0, cache.View(), notify);
        rest := rest - {k};
      }
      assert val - {} == val;
    }

    method OnSourceUpdate(level: nat, val: Values)
      requires Valid() && level < |source|
      modifies this`calls, cache, cache.repr
      ensures Valid() && fresh(cache.repr - old(cache.repr))
      ensures cache.View() == PutAll(old(cache.View()), level, val)
      ensures calls == old(calls) + Calls(PutNotice(old(cache.View()), level, val), [])
    {
      var notify := PutValues(level, val);
      Notify(notify, []);
    }

    /** The inner loop of `onDelete` and `onSync`: the highest lower level that has the key. */
    method FindBelow(level: nat, k: string) returns (r: Option<ValueNode>)
      requires level <= |source|
      ensures r == Fallback(Held(), level, k)
    {
      var i := level - 1;
      while i >= 0
        invariant -1 <= i < level
        invariant Highest(Held(), k, level) == Highest(Held(), k, i + 1)
      {
        var v := source[i].Get(k);
        if v.Some? {
          return Some(ValueNode(i, v.value));
        }
        i := i - 1;
      }
      return None;
    }

    method Replace(k: string, f: Option<ValueNode>)
      requires Valid() && IsKey(k, SEPARATOR)
      modifies cache, cache.repr
      ensures Valid() && fresh(cache.repr - old(cache.repr))
      ensures cache.View() == if f.Some? then old(cache.View())[k := f.value] else old(cache.View()) - {k}
    {
      if f.Some? {
        cache.Put(k, f.value);
      } else {
        cache.Del(k);
      }
    }

    /** One turn of the outer loop of `onDelete` and `onSync`. */
    method DropKey(level: nat, k: string, updates: Values, deletes: seq<string>)
        returns (updates': Values, deletes': seq<string>)
      requires Valid() && level <= |source|
      modifies cache, cache.repr
      ensures Valid() && fresh(cache.repr - old(cache.repr))
      ensures KeyDropped(Held(), level, k, old(cache.View()), updates, deletes, cache.View(), updates', deletes')
    {
      updates', deletes' := updates, deletes;
      var node := cache.Get(k);
      if node.Some? && node.value.level == level {
        cache.TwoViews(k);
        var f := FindBelow(level, k);
        Replace(k, f);
        if f.Some? {
          if f.value.value != node.value.value {
            updates' := updates[k := f.value.value];
          }
        } else {
          deletes' := deletes + [k];
        }
      }
    }

    /** The outer loop over a list of keys. */
    method DropKeys(level: nat, keys: seq<string>) returns (updates: Values, deletes: seq<string>)
      requires Valid() && level <= |source|
      modifies cache, cache.repr
      ensures Valid() && fresh(cache.repr - old(cache.repr))
      ensures cache.View() == DropAll(Held(), old(cache.View()), level, SetOf(keys))
      ensures updates == DropUpdates(Held(), old(cache.View()), level, SetOf(keys))
      ensures SetOf(deletes) == DropDeletes(Held(), old(cache.View()), level, SetOf(keys))
    {
      updates, deletes := map[], [];
      ghost var was, layers := cache.View(), Held();
      DropNothing(layers, was, level);
      for i := 0 to |keys|
        invariant Valid() && fresh(cache.repr - old(cache.repr)) && Held() == layers
        invariant Dropped(layers, was, level, SetOf(keys[..i]), cache.View(), updates, deletes)
        modifies cache, cache.repr
      {
        ghost var view, updates0, deletes0 := cache.View(), updates, deletes;
        updates, deletes := DropKey(level, keys[i], updates, deletes);
        DroppedStep(layers, was, level, SetOf(keys[..i]), keys[i], view, updates0, deletes0,
                    cache.View(), updates, deletes);
        SetOfPrefix(keys, i);
      }
      assert keys[..|keys|] == keys;
    }

    method OnSourceDelete(level: nat, keys: seq<string>) returns (ghost deletes: seq<string>)
      requires Valid() && level < |source|
      modifies this`calls, cache, cache.repr
      ensures Valid() && fresh(cache.repr - old(cache.repr))
      ensures cache.View() == DropAll(Held(), old(cache.View()), level, SetOf(keys))
      ensures SetOf(deletes) == DropDeletes(Held(), old(cache.View()), level, SetOf(keys))
      ensures calls == old(calls) + Calls(DropUpdates(Held(), old(cache.View()), level, SetOf(keys)), deletes)
    {
      ghost var was, layers := cache.View(), Held();
      var updates, dropped := DropKeys(level, keys);
      assert Held() == layers && cache.View() == DropAll(layers, was, level, SetOf(keys));
      Notify(updates, dropped);
      deletes := dropped;
    }

    /** The second loop of `onSync`: drops the cached keys that the sync does not mention. */
    method DropUnmentioned(level: nat, val: Values) returns (updates: Values, deletes: seq<string>)
      requires Valid() && level <= |source|
      modifies cache, cache.repr
      ensures Valid() && fresh(cache.repr - old(cache.repr))
      ensures var was := old(cache.View());
              var rest := was.Keys - val.Keys;
              && cache.View() == DropAll(Held(), was, level, rest)
              && updates == DropUpdates(Held(), was, level, rest)
              && SetOf(deletes) == DropDeletes(Held(), was, level, rest)
    {
      var keys := cache.Keys();
      assert SetOf(keys) == cache.View().Keys by {
        assert forall k :: k in keys <==> k in multiset(keys);
      }
      var unmentioned := Unmentioned(keys, val);
      updates, deletes := DropKeys(level, unmentioned);
    }

    /** The keys that the sync does not mention. */
    method Unmentioned(keys: seq<string>, val: Values) returns (unmentioned: seq<string>)
      ensures SetOf(unmentioned) == SetOf(keys) - val.Keys
    {
      unmentioned := [];
      for i := 0 to |keys|
        invariant SetOf(unmentioned) == SetOf(keys[..i]) - val.Keys
      {
        SetOfPrefix(keys, i);
        if keys[i] !in val {
          SetOfSnoc(unmentioned, keys[i]);
          unmentioned := unmentioned + [keys[i]];
        }
      }
      assert keys[..|keys|] == keys;
    }

    method OnSourceSync(level: nat, val: Values) returns (ghost deletes: seq<string>)
      requires Valid() && level < |source|
      modifies this`calls, cache, cache.repr
      ensures Valid() && fresh(cache.repr - old(cache.repr))
      ensures var was := old(cache.View());
              var put, missing := PutAll(was, level, val), Missing(was, level, val);
              && cache.View() == DropAll(Held(), put, level, missing)
              && SetOf(deletes) == DropDeletes(Held(), put, level, missing)
              && calls == old(calls)
                   + Calls(PutNotice(was, level, val) + DropUpdates(Held(), put, level, missing), deletes)
    {
      ghost var was, layers := cache.View(), Held();
      DropMissing(layers, was, level, val);
      var notify := PutValues(level, val);
      assert Held() == layers && cache.View() == PutAll(was, level, val);
      var updates, dropped := DropUnmentioned(level, val);
      assert Held() == layers;
      Notify(notify + updates, dropped);
      deletes := dropped;
    }

    // ----- whole events, from the wrapper to the watchers -----

    /** A wrapper stores or deletes; the other levels keep what they hold. */
    method StoreIn(level: nat, val: Values)
      requires Distinct() && level < |source|
      modifies source[level]
      ensures Held() == old(Held())[level := old(Held())[level] + val]
    {
      source[level].Store(val);
    }

    method DeleteIn(level: nat, keys: seq<string>)
      requires Distinct() && level < |source|
      modifies source[level]
      ensures Held() == old(Held())[level := old(Held())[level] - SetOf(keys)]
    {
      source[level].OnDelete(keys);
    }

    /** An update announced by a source. */
    method Updated(level: nat, val: Values)
      requires Valid() && Distinct() && level < |source|
      modifies this`calls, source, cache, cache.repr
      ensures Valid() && fresh(cache.repr - old(cache.repr))
      ensures Held() == StepLayers(old(Held()), Update(level, val))
      ensures cache.View() == StepCache(Held(), old(cache.View()), Update(level, val))
      ensures calls == old(calls) + Calls(StepNotice(Held(), old(cache.View()), Update(level, val)).updates, [])
    {
      StoreIn(level, val);
      if val != map[] {
        OnSourceUpdate(level, val);
      } else {
        assert PutAll(cache.View(), level, val) == cache.View();
      }
    }

    /** A deletion announced by a source. */
    method Deleted(level: nat, keys: seq<string>) returns (ghost deletes: seq<string>)
      requires Valid() && Distinct() && level < |source|
      modifies this`calls, source, cache, cache.repr
      ensures Valid() && fresh(cache.repr - old(cache.repr))
      ensures Held() == StepLayers(old(Held()), Delete(level, SetOf(keys)))
      ensures cache.View() == StepCache(Held(), old(cache.View()), Delete(level, SetOf(keys)))
      ensures SetOf(deletes) == StepNotice(Held(), old(cache.View()), Delete(level, SetOf(keys))).deletes
      ensures calls == old(calls)
        + Calls(StepNotice(Held(), old(cache.View()), Delete(level, SetOf(keys))).updates, deletes)
    {
      DeleteIn(level, keys);
      if keys == [] {
        DropNothing(Held(), cache.View(), level);
        assert SetOf(keys) == {};
        return [];
      }
      deletes := OnSourceDelete(level, keys);
    }

    /** A full snapshot announced by a source; the notifier drops an empty one. */
    method Synced(level: nat, val: Values) returns (ghost deletes: seq<string>)
      requires Valid() && Distinct() && level < |source|
      modifies this`calls, source, cache, cache.repr
      ensures Valid() && fresh(cache.repr - old(cache.repr))
      ensures Held() == StepLayers(old(Held()), Sync(level, val))
      ensures cache.View() == StepCache(Held(), old(cache.View()), Sync(level, val))
      ensures SetOf(deletes) == StepNotice(Held(), old(cache.View()), Sync(level, val)).deletes
      ensures calls == old(calls) + Calls(StepNotice(Held(), old(cache.View()), Sync(level, val)).updates, deletes)
    {
      StoreIn(level, val);
      if val == map[] {
        return [];
      }
      deletes := OnSourceSync(level, val);
    }

    // ----- the initial sync -----

    method OverlayValue(level: nat, k: string, v: string, notify: Values) returns (notify': Values)
      requires Valid()
      modifies cache, cache.repr
      ensures Valid() && fresh(cache.repr - old(cache.repr))
      ensures KeyOverlaid(level, k, v, old(cache.View()), notify, cache.View(), notify')
    {
      notify' := notify;
      var node := cache.Get(k);
      if node.None? || node.value.value != v {
        notify' := notify[k := v];
      }
      cache.Put(k, ValueNode(level, v));
    }

    /** One level of `sync`. */
    method SyncLevel(level: nat, val: Values)
      requires Valid()
      modifies this`calls, cache, cache.repr
      ensures Valid() && fresh(cache.repr - old(cache.repr))
      ensures cache.View() == Overlay(old(cache.View()), level, val)
      ensures calls == old(calls) + Calls(OverlayNotice(old(cache.View()), val), [])
    {
      var notify := OverlayValues(level, val);
      Notify(notify, []);
    }

    /** The loop of `sync` over the values of one level. */
    method OverlayValues(level: nat, val: Values) returns (notify: Values)
      requires Valid()
      modifies cache, cache.repr
      ensures Valid() && fresh(cache.repr - old(cache.repr))
      ensures cache.View() == Overlay(old(cache.View()), level, val)
      ensures notify == OverlayNotice(old(cache.View()), val)
    {
      notify := map[];
      ghost var was := cache.View();
      var rest := val.Keys;
      assert val - rest == map[];
      while rest != {}
        invariant rest <= val.Keys && Valid() && fresh(cache.repr - old(cache.repr))
        invariant OverlayExcept(was, level, val, rest, cache.View(), notify)
        modifies cache, cache.repr
        decreases rest
      {
        var k :| k in rest;
        ghost var view, notify0 := cache.View(), notify;
        notify := OverlayValue(level, k, val[k], notify);
        OverlayExceptStep(was, level, val, rest, k, view, notify0, cache.View(), notify);
        rest := rest - {k};
      }
      assert val - {} == val;
    }

    /** A source returns its values; the wrapper and the cache take them. */
    method SyncSource(level: nat, val: Values)
      requires Valid() && Distinct() && level < |source| && Held()[level] == map[]
      modifies this`calls, source, cache, cache.repr
      ensures Valid() && fresh(cache.repr - old(cache.repr))
      ensures Held() == old(Held())[level := val] && cache.View() == Overlay(old(cache.View()), level, val)
      ensures calls == old(calls) + Calls(OverlayNotice(old(cache.View()), val), [])
    {
      assert map[] + val == val;
      StoreIn(level, val);
      SyncLevel(level, val);
    }

    /** `sync`: reads every source in ascending order; `fetched[i]` is what source `i` returns, `None` an error. */
    method SyncAll(fetched: seq<Option<Values>>) returns (n: nat, ghost sent: seq<Call>)
      requires Valid() && Distinct() && Fetched(Held(), fetched, 0) && cache.View() == map[]
      modifies this`calls, source, cache, cache.repr
      ensures Valid() && fresh(cache.repr - old(cache.repr))
      ensures n <= |source| && Fetched(Held(), fetched, n) && (n < |source| ==> fetched[n].None?)
      ensures cache.View() == InitialCache(Held(), n)
      // a watcher that starts from nothing has the cache when the calls are in
      ensures calls == old(calls) + sent && KeysOnly(Receive(map[], sent)) == ViewOf(cache.View())
    {
      n, sent := 0, [];
      ghost var layers, views := Held(), [cache.View()];
      ProgressStart(calls, fetched, layers);
      while n < |source| && fetched[n].Some?
        invariant Valid() && fresh(cache.repr - old(cache.repr))
        invariant n <= |source| && Progress(old(calls), calls, layers, views, fetched, n, sent)
        invariant Held() == layers && cache.View() == views[n]
        modifies this`calls, source, cache, cache.repr
      {
        ProgressNext(old(calls), calls, layers, views, fetched, n, sent);
        SyncSource(n, fetched[n].value);
        sent := sent + Calls(OverlayNotice(views[n], fetched[n].value), []);
        layers, views := layers[n := fetched[n].value], views + [Overlay(views[n], n, fetched[n].value)];
        n := n + 1;
      }
      ProgressEnd(old(calls), calls, layers, views, fetched, n, sent);
    }
  }
}
