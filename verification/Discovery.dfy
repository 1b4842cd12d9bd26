/** The discovery replica: per-service instance lists kept from notifications, and a picker per service. */
module Discoveries {
  import opened Wrappers
  import opened RoundRobins

  const HTTP_PREFIX := "http.server@registry"
  const TYPE_HTTP := 2

  /** Instance metadata: not a string, a string that does not parse, or the parsed registry record. */
  datatype Meta = Foreign(value: int) | Unparsable(text: string) | Parsed(version: int, kind: int, tls: bool)

  datatype Instance = Instance(addr: string, meta: Meta)

  datatype AddressInfo = AddressInfo(addr: string, tls: bool)

  type Services = map<string, seq<Instance>>

  function Replica(services: Services, s: string): seq<Instance> {
    if s in services then services[s] else []
  }

  function AddrsOf(instances: seq<Instance>): (r: set<string>) {
    set i | 0 <= i < |instances| :: instances[i].addr
  }

  /** The addresses that discovery knows for a service. */
  function Seen(services: Services, s: string): set<string> {
    AddrsOf(Replica(services, s))
  }

  /** An HTTP endpoint is not offered to gRPC callers. */
  predicate Eligible(s: string, m: Meta) {
    m.Parsed? ==> !((m.version < 2 && HTTP_PREFIX <= s) || (m.version >= 2 && m.kind == TYPE_HTTP))
  }

  function InfoOf(i: Instance): AddressInfo {
    AddressInfo(i.addr, i.meta.Parsed? && i.meta.tls)
  }

  /** What the picker of a service is built from. */
  function Infos(s: string, instances: seq<Instance>): seq<AddressInfo> {
    if instances == [] then []
    else
      var n := |instances| - 1;
      Infos(s, instances[..n]) + if Eligible(s, instances[n].meta) then [InfoOf(instances[n])] else []
  }

  /** The picker's list holds exactly the eligible instances. */
  lemma {:induction false} InfosExact(s: string, instances: seq<Instance>, a: AddressInfo)
    ensures a in Infos(s, instances) <==>
      exists i :: 0 <= i < |instances| && Eligible(s, instances[i].meta) && InfoOf(instances[i]) == a
  {
    if instances != [] {
      var n := |instances| - 1;
      InfosExact(s, instances[..n], a);
      if i :| 0 <= i < n && Eligible(s, instances[i].meta) && InfoOf(instances[i]) == a {
        assert InfoOf(instances[..n][i]) == a;
      }
    }
  }

  // ----- what notifications do to the replica -----

  function Updated(services: Services, s: string, instances: seq<Instance>): Services {
    if instances == [] then services else services[s := instances + Replica(services, s)]
  }

  function Remains(instances: seq<Instance>, gone: set<string>): seq<Instance> {
    if instances == [] then []
    else
      var n := |instances| - 1;
      Remains(instances[..n], gone) + if instances[n].addr in gone then [] else [instances[n]]
  }

  function Deleted(services: Services, s: string, instances: seq<Instance>): Services {
    if instances == [] then services else services[s := Remains(Replica(services, s), AddrsOf(instances))]
  }

  lemma AddrsConcat(a: seq<Instance>, b: seq<Instance>)
    ensures AddrsOf(a + b) == AddrsOf(a) + AddrsOf(b)
  {
    forall x | x in AddrsOf(a) + AddrsOf(b) ensures x in AddrsOf(a + b) {
      if x in AddrsOf(a) {
        var i :| 0 <= i < |a| && a[i].addr == x;
        assert (a + b)[i].addr == x;
      } else {
        var i :| 0 <= i < |b| && b[i].addr == x;
        assert (a + b)[|a| + i].addr == x;
      }
    }
  }

  lemma AddrsSnoc(a: seq<Instance>)
    requires a != []
    ensures AddrsOf(a) == AddrsOf(a[..|a| - 1]) + {a[|a| - 1].addr}
  {
    var n := |a| - 1;
    assert a == a[..n] + [a[n]];
    AddrsConcat(a[..n], [a[n]]);
    assert AddrsOf([a[n]]) == {a[n].addr};
  }

  lemma {:induction false} RemainsAddrs(instances: seq<Instance>, gone: set<string>)
    ensures AddrsOf(Remains(instances, gone)) == AddrsOf(instances) - gone
  {
    if instances != [] {
      var n := |instances| - 1;
      RemainsAddrs(instances[..n], gone);
      AddrsSnoc(instances);
      var last := if instances[n].addr in gone then [] else [instances[n]];
      AddrsConcat(Remains(instances[..n], gone), last);
      if instances[n].addr !in gone {
        assert AddrsOf(last) == {last[0].addr};
      }
    }
  }

  /** An update adds its addresses to one service and touches no other. */
  lemma UpdatedSeen(services: Services, s: string, instances: seq<Instance>, t: string)
    ensures Seen(Updated(services, s, instances), t) == Seen(services, t) + if t == s then AddrsOf(instances) else {}
  {
    AddrsConcat(instances, Replica(services, s));
  }

  /** A delete takes its addresses from one service and touches no other. */
  lemma DeletedSeen(services: Services, s: string, instances: seq<Instance>, t: string)
    ensures Seen(Deleted(services, s, instances), t) == Seen(services, t) - if t == s then AddrsOf(instances) else {}
  {
    RemainsAddrs(Replica(services, s), AddrsOf(instances));
  }

  lemma {:induction false} RemainsAll(instances: seq<Instance>)
    ensures Remains(instances, {}) == instances
  {
    if instances != [] {
      RemainsAll(instances[..|instances| - 1]);
    }
  }

  /** The list of a service after an update: the new instances in front of the old ones. */
  lemma UpdatedReplica(services: Services, s: string, instances: seq<Instance>, t: string)
    ensures Replica(Updated(services, s, instances), t) ==
      if t == s then instances + Replica(services, t) else Replica(services, t)
  {
    assert [] + Replica(services, t) == Replica(services, t);
  }

  /** And after a delete: the instances with other addresses, in their order. */
  lemma DeletedReplica(services: Services, s: string, instances: seq<Instance>, t: string)
    ensures Replica(Deleted(services, s, instances), t) ==
      if t == s then Remains(Replica(services, t), AddrsOf(instances)) else Replica(services, t)
  {
    if instances == [] {
      assert AddrsOf(instances) == {};
      RemainsAll(Replica(services, t));
    }
  }

  // ----- the class -----

  class Discovery {
    const filter: Option<AddressInfo -> bool>
    var grpcServices: Services
    var grpcEntries: map<string, RoundRobinPicker<AddressInfo>>

    /** Every service has a picker over its eligible instances, or none of them is eligible. */
    ghost predicate Valid()
      reads this, grpcEntries.Values
    {
      && (forall s | s in grpcEntries ::
            grpcEntries[s].Valid() && grpcEntries[s].isAddressAvailable == filter
            && grpcEntries[s].addrs == Infos(s, Replica(grpcServices, s)))
      && (forall s | s !in grpcEntries :: Infos(s, Replica(grpcServices, s)) == [])
    }

    constructor (filter: Option<AddressInfo -> bool>)
      ensures Valid() && grpcServices == map[] && grpcEntries == map[] && this.filter == filter
    {
      this.filter, grpcServices, grpcEntries := filter, map[], map[];
    }

    method BuildAddrs(serviceName: string, instances: seq<Instance>) returns (addrs: seq<AddressInfo>)
      ensures addrs == Infos(serviceName, instances)
    {
      addrs := [];
      for i := 0 to |instances|
        invariant addrs == Infos(serviceName, instances[..i])
      {
        assert instances[..i + 1][..i] == instances[..i];
        var instance := instances[i];
        if !instance.meta.Parsed? {
          addrs := addrs + [AddressInfo(instance.addr, false)];
        } else if instance.meta.version < 2 && HTTP_PREFIX <= serviceName {
        } else if instance.meta.version >= 2 && instance.meta.kind == TYPE_HTTP {
        } else {
          addrs := addrs + [AddressInfo(instance.addr, instance.meta.tls)];
        }
      }
      assert instances[..|instances|] == instances;
    }

    /** The common end of update and delete: a new picker and the new list; only a delete drops an empty picker. */
    method Replace(serviceName: string, instances: seq<Instance>, dropEmpty: bool)
      requires Valid()
      modifies this
      ensures Valid() && grpcServices == old(grpcServices)[serviceName := instances]
      ensures forall p | p in grpcEntries.Values :: p in old(grpcEntries).Values || fresh(p)
    {
      var addrs := BuildAddrs(serviceName, instances);
      if dropEmpty && |addrs| == 0 {
        grpcEntries := grpcEntries - {serviceName};
      } else {
        var picker := new RoundRobinPicker(addrs, filter);
        grpcEntries := grpcEntries[serviceName := picker];
      }
      grpcServices := grpcServices[serviceName := instances];
    }

    method UpdateGrpcEntries(serviceName: string, instances: seq<Instance>)
      requires Valid()
      modifies this
      ensures Valid() && grpcServices == Updated(old(grpcServices), serviceName, instances)
      ensures forall p | p in grpcEntries.Values :: p in old(grpcEntries).Values || fresh(p)
    {
      if |instances| == 0 {
        return;
      }
      Replace(serviceName, instances + Replica(grpcServices, serviceName), false);
    }

    method DeleteGrpcEntries(serviceName: string, instances: seq<Instance>)
      requires Valid()
      modifies this
      ensures Valid() && grpcServices == Deleted(old(grpcServices), serviceName, instances)
      ensures forall p | p in grpcEntries.Values :: p in old(grpcEntries).Values || fresh(p)
    {
      if |instances| == 0 {
        return;
      }
      var remains := KeepOthers(Replica(grpcServices, serviceName), instances);
      Replace(serviceName, remains, true);
    }

    /** The scan of the previous instances in the delete. */
    method KeepOthers(prevInstances: seq<Instance>, instances: seq<Instance>) returns (remains: seq<Instance>)
      ensures remains == Remains(prevInstances, AddrsOf(instances))
    {
      remains := [];
      for i := 0 to |prevInstances|
        invariant remains == Remains(prevInstances[..i], AddrsOf(instances))
      {
        assert prevInstances[..i + 1][..i] == prevInstances[..i];
        var del := Mentions(instances, prevInstances[i].addr);
        if !del {
          remains := remains + [prevInstances[i]];
        }
      }
      assert prevInstances[..|prevInstances|] == prevInstances;
    }

    /** The inner search of the delete. */
    method Mentions(instances: seq<Instance>, addr: string) returns (del: bool)
      ensures del <==> addr in AddrsOf(instances)
    {
      del := false;
      for j := 0 to |instances|
        invariant !del && forall k | 0 <= k < j :: instances[k].addr != addr
      {
        if instances[j].addr == addr {
          return true;
        }
      }
    }

    /**
     * Picks an eligible, available instance of the service, and fails exactly when it has none. A pick only
     * moves the picker on.
     */
    method PickWithInfo(serviceName: string) returns (r: Option<AddressInfo>)
      requires Valid()
      modifies grpcEntries.Values
      ensures Valid()
      ensures r.Some? ==> r.value in Infos(serviceName, Replica(grpcServices, serviceName))
      ensures r.Some? ==> r.value.addr in Seen(grpcServices, serviceName)
      ensures r.Some? && filter.Some? ==> filter.value(r.value)
      ensures r.None? <==> forall a | a in Infos(serviceName, Replica(grpcServices, serviceName)) ::
        filter.Some? && !filter.value(a)
    {
      if serviceName !in grpcEntries {
        return None;
      }
      var p := grpcEntries[serviceName];
      ghost var infos := Infos(serviceName, Replica(grpcServices, serviceName));
      ghost var scans;
      PickerAnswers(infos, p, p.next);
      r, scans := p.Pick();
      if r.Some? {
        InfosExact(serviceName, Replica(grpcServices, serviceName), r.value);
      }
    }
  }

  lemma PickerAnswers(infos: seq<AddressInfo>, p: RoundRobinPicker<AddressInfo>, next: nat)
    requires p.addrs == infos && (next < |infos| || infos == [])
    ensures Any(p.Avail()) <==> !forall a | a in infos :: p.isAddressAvailable.Some? && !p.isAddressAvailable.value(a)
    ensures Any(p.Avail()) ==> infos != [] && p.Avail()[Chosen(p.Avail(), next)]
  {
    var avail := p.Avail();
    if a :| a in infos && (p.isAddressAvailable.None? || p.isAddressAvailable.value(a)) {
      var i :| 0 <= i < |infos| && infos[i] == a;
      assert Available(avail, i);
    }
    if next < |infos| {
      FoundIffAny(avail, next);
    }
    if Any(avail) {
      var i: nat :| i < |avail| && Available(avail, i);
      assert infos[i] in infos;
    }
  }
}
