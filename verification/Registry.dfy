/** The in-memory registry and the replica that follows it through notifications. */
module Registries {
  import opened Discoveries

  /** Address to metadata, per service. */
  type Entries = map<string, map<string, Meta>>

  function Instances(entries: Entries, s: string): map<string, Meta> {
    if s in entries then entries[s] else map[]
  }

  /** No service is left behind with an empty instance map. */
  predicate NoEmpty(entries: Entries) {
    forall s | s in entries :: entries[s] != map[]
  }

  /** The list holds every association of the map, once each. */
  ghost predicate Enumerates(instances: seq<Instance>, m: map<string, Meta>) {
    && AddrsOf(instances) == m.Keys && |instances| == |m|
    && forall i | 0 <= i < |instances| :: instances[i].addr in m && m[instances[i].addr] == instances[i].meta
  }

  // ----- the bulk replacement of one service -----

  /** The instance map built from a list: the last metadata of an address wins. */
  function InstanceMap(es: seq<Instance>): (m: map<string, Meta>) {
    if es == [] then map[]
    else
      var n := |es| - 1;
      InstanceMap(es[..n])[es[n].addr := es[n].meta]
  }

  /** The entries announced as new: the address was not registered before, or an earlier entry has it too. */
  function News(prev: set<string>, es: seq<Instance>): seq<Instance> {
    if es == [] then []
    else
      var n := |es| - 1;
      News(prev, es[..n]) + if es[n].addr in prev && es[n].addr !in AddrsOf(es[..n]) then [] else [es[n]]
  }

  /** An address that is listed more than once. */
  predicate Repeated(es: seq<Instance>, a: string) {
    exists i, j :: 0 <= i < j < |es| && es[i].addr == a && es[j].addr == a
  }

  lemma {:induction false} InstanceMapKeys(es: seq<Instance>)
    ensures InstanceMap(es).Keys == AddrsOf(es)
  {
    if es != [] {
      InstanceMapKeys(es[..|es| - 1]);
      AddrsSnoc(es);
    }
  }

  lemma RepeatedSnoc(es: seq<Instance>, a: string)
    requires es != []
    ensures var n := |es| - 1;
      Repeated(es, a) <==> Repeated(es[..n], a) || (es[n].addr == a && a in AddrsOf(es[..n]))
  {
    var n := |es| - 1;
    if Repeated(es, a) {
      var i, j :| 0 <= i < j < |es| && es[i].addr == a && es[j].addr == a;
      assert es[..n][i].addr == a;
      assert j < n ==> es[..n][j].addr == a;
    }
    if Repeated(es[..n], a) {
      var i, j :| 0 <= i < j < n && es[..n][i].addr == a && es[..n][j].addr == a;
      assert es[i].addr == a && es[j].addr == a;
    }
    if es[n].addr == a && a in AddrsOf(es[..n]) {
      var i :| 0 <= i < n && es[..n][i].addr == a;
      assert es[i].addr == a;
    }
  }

  /** Announced as new are the listed addresses that were not registered, and those listed more than once. */
  lemma {:induction false} NewsAddrs(prev: set<string>, es: seq<Instance>, a: string)
    ensures a in AddrsOf(News(prev, es)) <==> a in AddrsOf(es) && (a !in prev || Repeated(es, a))
  {
    if es != [] {
      var n := |es| - 1;
      NewsAddrs(prev, es[..n], a);
      AddrsSnoc(es);
      RepeatedSnoc(es, a);
      var last := if es[n].addr in prev && es[n].addr !in AddrsOf(es[..n]) then [] else [es[n]];
      AddrsConcat(News(prev, es[..n]), last);
      if |last| > 0 {
        assert AddrsOf(last) == {last[0].addr};
      }
    }
  }

  // ----- calls, and what each does to the registry and to the replica -----

  datatype Call =
    | Register(s: string, addr: string, meta: Meta)
    | Unregister(s: string, addr: string)
    | Bulk(names: seq<string>, es: seq<Instance>)

  /** The registry after one service was set to a new instance map. */
  function Put(entries: Entries, s: string, m: map<string, Meta>): Entries {
    if m == map[] then entries - {s} else entries[s := m]
  }

  lemma PutIs(entries: Entries, s: string, m: map<string, Meta>)
    ensures Put(entries, s, m) == if |m| == 0 then entries[s := m] - {s} else entries[s := m]
    ensures s in entries && entries[s] == m && m != map[] ==> Put(entries, s, m) == entries
  {
    assert entries[s := m] - {s} == entries - {s};
  }

  function PutAll(entries: Entries, names: seq<string>, m: map<string, Meta>): Entries {
    if names == [] then entries
    else Put(PutAll(entries, names[..|names| - 1], m), names[|names| - 1], m)
  }

  function Step(entries: Entries, c: Call): Entries {
    match c
    case Register(s, addr, meta) => entries[s := Instances(entries, s)[addr := meta]]
    case Unregister(s, addr) => Put(entries, s, if addr == "" then map[] else Instances(entries, s) - {addr})
    case Bulk(names, es) => PutAll(entries, names, InstanceMap(es))
  }

  predicate Twice(names: seq<string>, s: string) {
    exists i, j :: 0 <= i < j < |names| && names[i] == s && names[j] == s
  }

  /** The addresses registered when the last mention of a service in a bulk call is processed. */
  function PrevAt(entries: Entries, names: seq<string>, es: seq<Instance>, s: string): set<string> {
    if Twice(names, s) then AddrsOf(es) else Instances(entries, s).Keys
  }

  /** The addresses the replica knows for a service after a call, when it knew `seen` before. */
  function React(entries: Entries, c: Call, s: string, seen: set<string>): set<string> {
    match c
    case Register(t, addr, _) => if t == s then seen + {addr} else seen
    case Unregister(t, addr) =>
      if t != s then seen
      else if addr == "" then seen - Instances(entries, s).Keys
      else seen - (Instances(entries, s).Keys * {addr})
    case Bulk(names, es) =>
      if s !in names then seen
      else
        var prev := PrevAt(entries, names, es, s);
        seen + AddrsOf(News(prev, es)) - (prev - AddrsOf(es))
  }

  /** The list the replica keeps for a service after a call, when it kept `list` before. */
  function ReactList(entries: Entries, c: Call, s: string, list: seq<Instance>): seq<Instance> {
    match c
    case Register(t, addr, meta) => if t == s then [Instance(addr, meta)] + list else list
    case Unregister(t, addr) => if t == s then Remains(list, Removed(entries, s, addr)) else list
    case Bulk(names, es) =>
      if s !in names then list
      else
        var prev := PrevAt(entries, names, es, s);
        Remains(News(prev, es) + list, prev - AddrsOf(es))
  }

  /** The addresses of the list react as the addresses known. */
  lemma ReactListAddrs(entries: Entries, c: Call, s: string, list: seq<Instance>)
    ensures AddrsOf(ReactList(entries, c, s, list)) == React(entries, c, s, AddrsOf(list))
  {
    match c {
      case Register(_, addr, meta) =>
        var one := [Instance(addr, meta)];
        assert AddrsOf(one) == {one[0].addr};
        AddrsConcat(one, list);
      case Unregister(_, addr) => RemainsAddrs(list, Removed(entries, s, addr));
      case Bulk(names, es) =>
        var prev := PrevAt(entries, names, es, s);
        AddrsConcat(News(prev, es), list);
        RemainsAddrs(News(prev, es) + list, prev - AddrsOf(es));
    }
  }

  // ----- agreement -----

  /**
   * What a repeated name in a bulk call must meet for the replica to stay right: nothing registered goes away,
   * and every address that comes new is listed more than once.
   */
  predicate Harmless(entries: Entries, es: seq<Instance>, s: string) {
    var prev := Instances(entries, s).Keys;
    prev <= AddrsOf(es) && forall a | a in AddrsOf(es) - prev :: Repeated(es, a)
  }

  predicate Tame(entries: Entries, c: Call) {
    c.Bulk? ==> forall s | s in c.names && Twice(c.names, s) :: Harmless(entries, c.es, s)
  }

  lemma {:induction false} PutAllInstances(entries: Entries, names: seq<string>, m: map<string, Meta>, s: string)
    ensures Instances(PutAll(entries, names, m), s) == if s in names then m else Instances(entries, s)
  {
    if names != [] {
      PutAllInstances(entries, names[..|names| - 1], m, s);
      assert names == names[..|names| - 1] + [names[|names| - 1]];
    }
  }

  /** A replica that knew a service exactly still does after a bulk call iff the repeats do no harm. */
  lemma BulkAgrees(entries: Entries, names: seq<string>, es: seq<Instance>, s: string)
    ensures var prev := Instances(entries, s).Keys;
      React(entries, Bulk(names, es), s, prev) == Instances(Step(entries, Bulk(names, es)), s).Keys
      <==> (s in names && Twice(names, s) ==> Harmless(entries, es, s))
  {
    var known := Instances(entries, s).Keys;
    PutAllInstances(entries, names, InstanceMap(es), s);
    InstanceMapKeys(es);
    if s in names {
      var prev := PrevAt(entries, names, es, s);
      var after := React(entries, Bulk(names, es), s, known);
      forall a ensures a in AddrsOf(News(prev, es)) <==> a in AddrsOf(es) && (a !in prev || Repeated(es, a)) {
        NewsAddrs(prev, es, a);
      }
      if Twice(names, s) {
        assert forall a :: a in after <==> a in known || (a in AddrsOf(es) && Repeated(es, a));
      } else {
        assert forall a :: a in after <==> a in AddrsOf(es);
        assert after == AddrsOf(es);
      }
    }
  }

  /** After any call the replica agrees on every service iff the call is tame. */
  lemma StepAgrees(entries: Entries, c: Call)
    ensures Tame(entries, c) <==>
      forall s :: React(entries, c, s, Instances(entries, s).Keys) == Instances(Step(entries, c), s).Keys
  {
    forall s
      ensures React(entries, c, s, Instances(entries, s).Keys) == Instances(Step(entries, c), s).Keys
        <==> (c.Bulk? && s in c.names && Twice(c.names, s) ==> Harmless(entries, c.es, s))
    {
      if c.Bulk? {
        BulkAgrees(entries, c.names, c.es, s);
      }
    }
  }

  /** Every service's list reacts to the call. */
  ghost predicate Reacts(entries: Entries, c: Call, before: Services, after: Services) {
    forall s :: Replica(after, s) == ReactList(entries, c, s, Replica(before, s))
  }

  ghost predicate SeenAgrees(entries: Entries, services: Services) {
    forall s :: Seen(services, s) == Instances(entries, s).Keys
  }

  /** A replica whose lists react to a call and that agreed before still agrees iff the call is tame. */
  lemma ReactsAgree(entries: Entries, c: Call, before: Services, after: Services)
    requires Reacts(entries, c, before, after) && SeenAgrees(entries, before)
    ensures SeenAgrees(Step(entries, c), after) <==> Tame(entries, c)
  {
    StepAgrees(entries, c);
    forall s ensures Seen(after, s) == React(entries, c, s, Instances(entries, s).Keys) {
      ReactListAddrs(entries, c, s, Replica(before, s));
      assert Seen(before, s) == Instances(entries, s).Keys;
    }
  }

  lemma RegisterReacts(entries: Entries, s: string, addr: string, meta: Meta, before: Services)
    ensures Reacts(entries, Register(s, addr, meta), before, Updated(before, s, [Instance(addr, meta)]))
  {
    forall t {
      UpdatedReplica(before, s, [Instance(addr, meta)], t);
    }
  }

  lemma UnregisterReacts(entries: Entries, s: string, addr: string, dels: seq<Instance>, before: Services)
    requires AddrsOf(dels) == Removed(entries, s, addr)
    ensures Reacts(entries, Unregister(s, addr), before, Deleted(before, s, dels))
  {
    forall t {
      DeletedReplica(before, s, dels, t);
    }
  }

  /** Distinct names are always tame. */
  lemma DistinctTame(entries: Entries, c: Call)
    requires c.Bulk? ==> forall i, j | 0 <= i < j < |c.names| :: c.names[i] != c.names[j]
    ensures Tame(entries, c)
  {}

  /** A repeated name can leave the replica without an address that is registered. */
  lemma RepeatLosesNews()
    ensures var c := Bulk(["s", "s"], [Instance("a", Foreign(0))]);
      && "a" in Instances(Step(map[], c), "s")
      && React(map[], c, "s", {}) == {}
  {
    var es := [Instance("a", Foreign(0))];
    var names := ["s", "s"];
    assert names[0] == names[1] == "s";
    PutAllInstances(map[], names, InstanceMap(es), "s");
    InstanceMapKeys(es);
    assert es[0].addr == "a";
    forall a ensures a !in AddrsOf(News(AddrsOf(es), es)) {
      NewsAddrs(AddrsOf(es), es, a);
    }
  }

  lemma {:induction false} PutAllNoEmpty(entries: Entries, names: seq<string>, m: map<string, Meta>)
    requires NoEmpty(entries)
    ensures NoEmpty(PutAll(entries, names, m))
  {
    if names != [] {
      PutAllNoEmpty(entries, names[..|names| - 1], m);
    }
  }

  lemma StepNoEmpty(entries: Entries, c: Call)
    requires NoEmpty(entries)
    ensures NoEmpty(Step(entries, c))
  {
    match c {
      case Register(s, addr, meta) => assert addr in Step(entries, c)[s];
      case Unregister(_, _) =>
      case Bulk(names, es) => PutAllNoEmpty(entries, names, InstanceMap(es));
    }
  }

  // ----- runs -----

  function Run(entries: Entries, cs: seq<Call>): Entries
    decreases |cs|
  {
    if cs == [] then entries else Run(Step(entries, cs[0]), cs[1..])
  }

  function RunSeen(entries: Entries, cs: seq<Call>, s: string, seen: set<string>): set<string>
    decreases |cs|
  {
    if cs == [] then seen else RunSeen(Step(entries, cs[0]), cs[1..], s, React(entries, cs[0], s, seen))
  }

  predicate AllTame(entries: Entries, cs: seq<Call>)
    decreases |cs|
  {
    cs == [] || (Tame(entries, cs[0]) && AllTame(Step(entries, cs[0]), cs[1..]))
  }

  /** After any run of tame calls the replica knows exactly the registered addresses of every service. */
  lemma {:induction false} RunAgrees(entries: Entries, cs: seq<Call>, s: string)
    requires NoEmpty(entries) && AllTame(entries, cs)
    ensures NoEmpty(Run(entries, cs))
    ensures RunSeen(entries, cs, s, Instances(entries, s).Keys) == Instances(Run(entries, cs), s).Keys
    decreases |cs|
  {
    if cs != [] {
      StepAgrees(entries, cs[0]);
      StepNoEmpty(entries, cs[0]);
      RunAgrees(Step(entries, cs[0]), cs[1..], s);
    }
  }

  // ----- the class -----

  /** The addresses that a removal announces. */
  function Removed(entries: Entries, s: string, addr: string): set<string> {
    if addr == "" then Instances(entries, s).Keys else Instances(entries, s).Keys * {addr}
  }

  /** The list holds what has been taken from the map so far. */
  ghost predicate Listed(instances: seq<Instance>, m: map<string, Meta>, rest: map<string, Meta>) {
    && rest.Keys <= m.Keys && (forall a | a in rest :: rest[a] == m[a])
    && AddrsOf(instances) == m.Keys - rest.Keys && |instances| + |rest| == |m|
    && forall i | 0 <= i < |instances| :: instances[i].addr in m && m[instances[i].addr] == instances[i].meta
  }

  lemma MapLess(rest: map<string, Meta>, a: string)
    requires a in rest
    ensures (rest - {a}).Keys == rest.Keys - {a} && |rest - {a}| == |rest| - 1
  {
    assert (rest - {a}).Keys == rest.Keys - {a};
    assert |(rest - {a}).Keys| == |rest.Keys| - 1;
  }

  lemma ListedStep(instances: seq<Instance>, m: map<string, Meta>, rest: map<string, Meta>, a: string)
    requires Listed(instances, m, rest) && a in rest
    ensures Listed(instances + [Instance(a, rest[a])], m, rest - {a})
    ensures |rest - {a}| < |rest|
  {
    var last := [Instance(a, rest[a])];
    var more := instances + last;
    MapLess(rest, a);
    assert AddrsOf(more) == m.Keys - (rest - {a}).Keys by {
      AddrsConcat(instances, last);
      assert AddrsOf(last) == {last[0].addr};
      assert m.Keys - (rest.Keys - {a}) == (m.Keys - rest.Keys) + {a};
    }
    forall i | 0 <= i < |more| ensures more[i].addr in m && m[more[i].addr] == more[i].meta {
      assert more[i] == if i < |instances| then instances[i] else last[0];
    }
  }

  /** What a service's list becomes when its change, if it has one, is replayed. */
  function Shifted(changes: map<string, Change>, s: string, list: seq<Instance>): seq<Instance> {
    if s in changes then Remains(changes[s].news + list, AddrsOf(changes[s].dels)) else list
  }

  ghost predicate ShiftedAll(changes: map<string, Change>, before: Services, after: Services) {
    forall s :: Replica(after, s) == Shifted(changes, s, Replica(before, s))
  }

  /** Per service, the instances to announce as new and as gone. */
  datatype Change = Change(news: seq<Instance>, dels: seq<Instance>)

  class MemoryDiscovery {
    var entries: Entries
    var watcher: Discovery?

    /** The pickers of the attached replica. */
    ghost function Pickers(): set<object>
      reads this, watcher
    {
      if watcher == null then {} else (set p | p in watcher.grpcEntries.Values :: p as object)
    }

    ghost predicate Valid()
      reads this, watcher, Pickers()
    {
      NoEmpty(entries) && (watcher != null ==> watcher.Valid())
    }

    /** What the attached replica keeps. */
    ghost function KnownServices(): Services
      reads this, watcher
    {
      if watcher == null then map[] else watcher.grpcServices
    }

    /** The list it keeps for a service. */
    ghost function KnownList(s: string): seq<Instance>
      reads this, watcher
    {
      Replica(KnownServices(), s)
    }

    /** The attached replica knows exactly the registered addresses. */
    ghost predicate Agreed()
      reads this, watcher
    {
      watcher != null ==> SeenAgrees(entries, KnownServices())
    }

    /** The replica lists every registered address once, with its metadata. */
    ghost predicate Mirrored()
      reads this, watcher
    {
      forall s :: Enumerates(KnownList(s), Instances(entries, s))
    }

    constructor ()
      ensures Valid() && entries == map[] && watcher == null
    {
      entries, watcher := map[], null;
    }

    method OnUpdate(serviceName: string, instances: seq<Instance>)
      requires Valid()
      modifies watcher
      ensures Valid()
      ensures watcher != null ==> watcher.grpcServices == Updated(old(watcher.grpcServices), serviceName, instances)
    {
      if watcher != null {
        watcher.UpdateGrpcEntries(serviceName, instances);
      }
    }

    method OnDelete(serviceName: string, instances: seq<Instance>)
      requires Valid()
      modifies watcher
      ensures Valid()
      ensures watcher != null ==> watcher.grpcServices == Deleted(old(watcher.grpcServices), serviceName, instances)
    {
      if watcher != null {
        watcher.DeleteGrpcEntries(serviceName, instances);
      }
    }

    method RegisterService(serviceName: string, addr: string, meta: Meta)
      requires Valid()
      modifies this`entries, watcher
      ensures Valid() && entries == Step(old(entries), Register(serviceName, addr, meta))
      ensures watcher != null ==>
        Reacts(old(entries), Register(serviceName, addr, meta), old(KnownServices()), KnownServices())
      ensures old(Agreed()) ==> Agreed()
    {
      ghost var call, before := Register(serviceName, addr, meta), KnownServices();
      StepNoEmpty(entries, call);
      RegisterReacts(entries, serviceName, addr, meta, before);
      if SeenAgrees(entries, before) {
        ReactsAgree(entries, call, before, Updated(before, serviceName, [Instance(addr, meta)]));
      }
      var instanceMap := if serviceName in entries then entries[serviceName] else map[];
      entries := entries[serviceName := instanceMap[addr := meta]];
      OnUpdate(serviceName, [Instance(addr, meta)]);
    }

    /** The locked part of the removal. */
    method RemoveEntries(serviceName: string, addr: string) returns (dels: seq<Instance>)
      modifies this`entries
      ensures NoEmpty(old(entries)) ==> entries == Step(old(entries), Unregister(serviceName, addr))
      ensures AddrsOf(dels) == Removed(old(entries), serviceName, addr)
    {
      dels := [];
      if serviceName in entries {
        if addr == "" {
          dels := ListMap(entries[serviceName]);
          entries := entries - {serviceName};
        } else {
          dels := RemoveAddr(serviceName, addr);
        }
      } else {
        assert Step(entries, Unregister(serviceName, addr)) == entries;
      }
    }

    /** The removal of one address. */
    method RemoveAddr(serviceName: string, addr: string) returns (dels: seq<Instance>)
      requires serviceName in entries
      modifies this`entries
      ensures NoEmpty(old(entries)) ==> entries == Put(old(entries), serviceName, old(entries)[serviceName] - {addr})
      ensures AddrsOf(dels) == old(entries)[serviceName].Keys * {addr}
    {
      dels := [];
      var instanceMap := entries[serviceName];
      if addr in instanceMap {
        dels := [Instance(addr, instanceMap[addr])];
        assert AddrsOf(dels) == {dels[0].addr};
        instanceMap := instanceMap - {addr};
        entries := entries[serviceName := instanceMap];
      } else {
        assert instanceMap - {addr} == instanceMap;
      }
      PutIs(old(entries), serviceName, instanceMap);
      if |instanceMap| == 0 {
        entries := entries - {serviceName};
      }
    }

    method UnregisterService(serviceName: string, addr: string)
      requires Valid()
      modifies this`entries, watcher
      ensures Valid() && entries == Step(old(entries), Unregister(serviceName, addr))
      ensures watcher != null ==>
        Reacts(old(entries), Unregister(serviceName, addr), old(KnownServices()), KnownServices())
      ensures old(Agreed()) ==> Agreed()
    {
      ghost var call, before, was := Unregister(serviceName, addr), KnownServices(), entries;
      StepNoEmpty(entries, call);
      var dels := RemoveEntries(serviceName, addr);
      UnregisterReacts(was, serviceName, addr, dels, before);
      if SeenAgrees(was, before) {
        ReactsAgree(was, call, before, Deleted(before, serviceName, dels));
      }
      OnDelete(serviceName, dels);
    }

    /** A map as a list, in some order. */
    method ListMap(m: map<string, Meta>) returns (instances: seq<Instance>)
      ensures Enumerates(instances, m)
    {
      instances := [];
      var rest := m;
      while rest != map[]
        invariant Listed(instances, m, rest)
        decreases |rest|
      {
        var a :| a in rest;
        ListedStep(instances, m, rest, a);
        instances := instances + [Instance(a, rest[a])];
        rest := rest - {a};
      }
    }

    /** The loop body of the bulk replacement: the new map of one service, and what changed. */
    method Diff(prevInstances: map<string, Meta>, es: seq<Instance>)
      returns (instanceMap: map<string, Meta>, change: Change)
      ensures instanceMap == InstanceMap(es)
      ensures change.news == News(prevInstances.Keys, es)
      ensures Enumerates(change.dels, prevInstances - AddrsOf(es))
    {
      instanceMap := map[];
      var rest := prevInstances;
      var newInsts := [];
      for i := 0 to |es|
        invariant instanceMap == InstanceMap(es[..i])
        invariant newInsts == News(prevInstances.Keys, es[..i])
        invariant rest == prevInstances - AddrsOf(es[..i])
      {
        AddrsSnoc(es[..i + 1]);
        assert es[..i + 1][..i] == es[..i];
        instanceMap := instanceMap[es[i].addr := es[i].meta];
        if es[i].addr !in rest {
          newInsts := newInsts + [Instance(es[i].addr, es[i].meta)];
        } else {
          rest := rest - {es[i].addr};
        }
      }
      assert es[..|es|] == es;
      var dels := ListMap(rest);
      change := Change(newInsts, dels);
    }

    method ProcessEntry(serviceName: string, es: seq<Instance>) returns (change: Change)
      modifies this`entries
      ensures entries == Put(old(entries), serviceName, InstanceMap(es))
      ensures Fits(change, Instances(old(entries), serviceName).Keys, es)
    {
      var prevInstances := if serviceName in entries then entries[serviceName] else map[];
      var instanceMap;
      instanceMap, change := Diff(prevInstances, es);
      assert (prevInstances - AddrsOf(es)).Keys == prevInstances.Keys - AddrsOf(es);
      if |instanceMap| == 0 {
        entries := entries - {serviceName};
      } else {
        entries := entries[serviceName := instanceMap];
      }
    }

    /** The locked part of the bulk replacement: all services, and the last change of each. */
    method ProcessEntries(serviceNames: seq<string>, es: seq<Instance>) returns (notifyMap: map<string, Change>)
      modifies this`entries
      ensures entries == PutAll(old(entries), serviceNames, InstanceMap(es))
      ensures LastChanges(notifyMap, old(entries), serviceNames, es)
    {
      notifyMap := map[];
      for i := 0 to |serviceNames|
        invariant entries == PutAll(old(entries), serviceNames[..i], InstanceMap(es))
        invariant LastChanges(notifyMap, old(entries), serviceNames[..i], es)
      {
        var change := ProcessEntry(serviceNames[i], es);
        LastChangesStep(notifyMap, old(entries), serviceNames, es, i, change);
        assert serviceNames[..i + 1][..i] == serviceNames[..i];
        notifyMap := notifyMap[serviceNames[i] := change];
      }
      assert serviceNames[..|serviceNames|] == serviceNames;
    }

    method RegisterServiceWithEntries(serviceNames: seq<string>, es: seq<Instance>)
      requires Valid()
      modifies this`entries, watcher
      ensures Valid() && entries == Step(old(entries), Bulk(serviceNames, es))
      ensures watcher != null ==>
        Reacts(old(entries), Bulk(serviceNames, es), old(KnownServices()), KnownServices())
      ensures watcher != null && old(Agreed()) ==> (Agreed() <==> Tame(old(entries), Bulk(serviceNames, es)))
    {
      ghost var was, before := entries, KnownServices();
      StepNoEmpty(entries, Bulk(serviceNames, es));
      var notifyMap := ProcessEntries(serviceNames, es);
      Dispatch(notifyMap);
      if watcher != null {
        ChangesReact(notifyMap, was, serviceNames, es, before, KnownServices());
        if SeenAgrees(was, before) {
          ReactsAgree(was, Bulk(serviceNames, es), before, KnownServices());
        }
      }
    }

    /** The notifications of a bulk replacement, service by service in some order. */
    method Dispatch(notifyMap: map<string, Change>)
      requires Valid()
      modifies watcher
      ensures Valid()
      ensures watcher != null ==> ShiftedAll(notifyMap, old(KnownServices()), KnownServices())
    {
      var rest := notifyMap.Keys;
      while rest != {}
        invariant Valid() && rest <= notifyMap.Keys
        invariant watcher != null ==> forall s ::
          Replica(KnownServices(), s) == if s in rest then Replica(old(KnownServices()), s)
                                         else Shifted(notifyMap, s, Replica(old(KnownServices()), s))
        modifies watcher
        decreases |rest|
      {
        var serviceName :| serviceName in rest;
        Announce(serviceName, notifyMap[serviceName]);
        rest := rest - {serviceName};
      }
    }

    /** The notifications of one service. */
    method Announce(serviceName: string, change: Change)
      requires Valid()
      modifies watcher
      ensures Valid()
      ensures watcher != null ==>
        ShiftedAll(map[serviceName := change], old(KnownServices()), KnownServices())
    {
      ghost var v0 := if watcher == null then map[] else watcher.grpcServices;
      if |change.news| > 0 {
        OnUpdate(serviceName, change.news);
      }
      ghost var v1 := Updated(v0, serviceName, change.news);
      if |change.dels| > 0 {
        OnDelete(serviceName, change.dels);
      }
      ghost var v2 := Deleted(v1, serviceName, change.dels);
      forall s ensures Replica(v2, s) == Shifted(map[serviceName := change], s, Replica(v0, s)) {
        UpdatedReplica(v0, serviceName, change.news, s);
        DeletedReplica(v1, serviceName, change.dels, s);
      }
    }

    /** One service of the first read. */
    method ReadService(serviceName: string, instanceMap: map<string, Meta>)
      requires Valid()
      modifies watcher
      ensures Valid()
      ensures watcher != null ==> forall s | s != serviceName :: KnownList(s) == old(KnownList(s))
      ensures watcher != null && old(KnownList(serviceName)) == [] ==> Enumerates(KnownList(serviceName), instanceMap)
    {
      var instances := ListMap(instanceMap);
      ghost var before := if watcher == null then map[] else watcher.grpcServices;
      OnUpdate(serviceName, instances);
      forall s ensures Replica(Updated(before, serviceName, instances), s)
        == if s == serviceName then instances + Replica(before, s) else Replica(before, s)
      {
        UpdatedReplica(before, serviceName, instances, s);
      }
      assert instances + [] == instances;
    }

    /** The first read: every service, in some order. */
    method ReadAll()
      requires Valid() && forall s :: KnownList(s) == []
      modifies watcher
      ensures Valid() && (watcher != null ==> Mirrored())
    {
      var rest := entries.Keys;
      while rest != {}
        invariant Valid() && rest <= entries.Keys
        invariant watcher != null ==> forall s ::
          if s in rest then KnownList(s) == [] else Enumerates(KnownList(s), Instances(entries, s))
        modifies watcher
      {
        var serviceName :| serviceName in rest;
        ReadService(serviceName, entries[serviceName]);
        rest := rest - {serviceName};
      }
    }

    /** Attaches a new replica, which first reads all services. */
    method Attach(d: Discovery)
      requires Valid() && d.Valid() && d.grpcServices == map[]
      modifies this`watcher, d
      ensures watcher == d && entries == old(entries) && Valid() && Mirrored() && Agreed()
    {
      watcher := d;
      ReadAll();
    }

    /** A successful pick returns an address that is registered now. */
    method Pick(serviceName: string) returns (r: Wrappers.Option<AddressInfo>)
      requires Valid() && watcher != null
      modifies Pickers()
      ensures Valid() && entries == old(entries) && (old(Agreed()) ==> Agreed())
      ensures r.Some? && old(Agreed()) ==> r.value.addr in Instances(entries, serviceName)
      ensures KnownServices() == old(KnownServices())
      ensures r.Some? ==> r.value in Infos(serviceName, KnownList(serviceName))
    {
      r := watcher.PickWithInfo(serviceName);
    }
  }

  /** A change is what the difference between the addresses registered before and a list calls for. */
  ghost predicate Fits(change: Change, prev: set<string>, es: seq<Instance>) {
    change.news == News(prev, es) && AddrsOf(change.dels) == prev - AddrsOf(es)
  }

  /** The changes collected from the names of a bulk call: of each name, the one computed last. */
  ghost predicate LastChanges(changes: map<string, Change>, entries: Entries, names: seq<string>, es: seq<Instance>) {
    && (forall s :: s in changes <==> s in names)
    && forall s | s in changes :: Fits(changes[s], PrevAt(entries, names, es, s), es)
  }

  lemma ChangesReact(
    changes: map<string, Change>, entries: Entries, names: seq<string>, es: seq<Instance>,
    before: Services, after: Services)
    requires LastChanges(changes, entries, names, es)
    requires ShiftedAll(changes, before, after)
    ensures Reacts(entries, Bulk(names, es), before, after)
  {
    forall s ensures Replica(after, s) == ReactList(entries, Bulk(names, es), s, Replica(before, s)) {
      assert s in changes ==> Fits(changes[s], PrevAt(entries, names, es, s), es);
    }
  }

  lemma LastChangesStep(
    changes: map<string, Change>, entries: Entries, names: seq<string>, es: seq<Instance>, i: nat, change: Change)
    requires i < |names| && LastChanges(changes, entries, names[..i], es)
    requires Fits(change, Instances(PutAll(entries, names[..i], InstanceMap(es)), names[i]).Keys, es)
    ensures LastChanges(changes[names[i] := change], entries, names[..i + 1], es)
  {
    PutAllInstances(entries, names[..i], InstanceMap(es), names[i]);
    InstanceMapKeys(es);
    var before, after := names[..i], names[..i + 1];
    assert after == before + [names[i]];
    var changes' := changes[names[i] := change];
    assert forall s :: s in changes' <==> s in after;
    forall s | s in changes' ensures Fits(changes'[s], PrevAt(entries, after, es, s), es) {
      PrevGrows(entries, names, es, i, s);
    }
  }

  /** How the addresses registered before move when one more name of a bulk call is processed. */
  lemma PrevGrows(entries: Entries, names: seq<string>, es: seq<Instance>, i: nat, s: string)
    requires i < |names| && s in names[..i + 1]
    ensures PrevAt(entries, names[..i + 1], es, s) ==
      if s != names[i] then PrevAt(entries, names[..i], es, s)
      else if s in names[..i] then AddrsOf(es) else Instances(entries, s).Keys
  {
    var a, b := names[..i], names[..i + 1];
    if Twice(b, s) {
      var j, k :| 0 <= j < k < |b| && b[j] == s && b[k] == s;
      assert a[j] == s;
      assert k < i ==> a[k] == s;
    }
    if Twice(a, s) {
      var j, k :| 0 <= j < k < |a| && a[j] == s && a[k] == s;
      assert b[j] == s && b[k] == s;
    }
    if s == names[i] && s in a {
      var j :| 0 <= j < |a| && a[j] == s;
      assert b[j] == s && b[i] == s;
    }
  }
}
