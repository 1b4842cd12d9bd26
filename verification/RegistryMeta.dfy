/** What is registered after any run, and when the replica knows the metadata too. */
module RegistryMeta {
  import opened Wrappers
  import opened Discoveries
  import opened Registries

  // ----- the last call decides -----

  function Lookup(entries: Entries, s: string, a: string): Option<Meta> {
    if a in Instances(entries, s) then Some(Instances(entries, s)[a]) else None
  }

  /** The metadata listed for an address, in order. */
  function Metas(es: seq<Instance>, a: string): seq<Meta> {
    if es == [] then []
    else
      var n := |es| - 1;
      Metas(es[..n], a) + if es[n].addr == a then [es[n].meta] else []
  }

  lemma {:induction false} MetasListed(es: seq<Instance>, a: string)
    ensures Metas(es, a) != [] <==> a in AddrsOf(es)
    ensures Metas(es, a) != [] ==> a in InstanceMap(es) && InstanceMap(es)[a] == Metas(es, a)[|Metas(es, a)| - 1]
    ensures a in InstanceMap(es) <==> a in AddrsOf(es)
  {
    if es != [] {
      var n := |es| - 1;
      MetasListed(es[..n], a);
      AddrsSnoc(es);
    }
  }

  /** What a call says about an address of a service: nothing, that it is gone, or its metadata. */
  function Says(c: Call, s: string, a: string): Option<Option<Meta>> {
    match c
    case Register(t, b, meta) => if t == s && b == a then Some(Some(meta)) else None
    case Unregister(t, b) => if t == s && (b == "" || b == a) then Some(None) else None
    case Bulk(names, es) =>
      if s !in names then None
      else
        var ms := Metas(es, a);
        Some(if ms == [] then None else Some(ms[|ms| - 1]))
  }

  lemma StepSays(entries: Entries, c: Call, s: string, a: string)
    ensures Lookup(Step(entries, c), s, a) ==
      match Says(c, s, a) case None => Lookup(entries, s, a) case Some(said) => said
  {
    match c {
      case Register(_, _, _) =>
      case Unregister(_, _) =>
      case Bulk(names, es) =>
        PutAllInstances(entries, names, InstanceMap(es), s);
        MetasListed(es, a);
    }
  }

  lemma {:induction false} RunUnsaid(entries: Entries, cs: seq<Call>, s: string, a: string)
    requires forall i | 0 <= i < |cs| :: Says(cs[i], s, a).None?
    ensures Lookup(Run(entries, cs), s, a) == Lookup(entries, s, a)
    decreases |cs|
  {
    if cs != [] {
      StepSays(entries, cs[0], s, a);
      RunUnsaid(Step(entries, cs[0]), cs[1..], s, a);
    }
  }

  /** After any run of calls, bulk calls included, the last call about an address decides what is registered for it. */
  lemma {:induction false} LastCallDecides(entries: Entries, cs: seq<Call>, s: string, a: string, k: nat)
    requires k < |cs| && Says(cs[k], s, a).Some? && forall i | k < i < |cs| :: Says(cs[i], s, a).None?
    ensures Lookup(Run(entries, cs), s, a) == Says(cs[k], s, a).value
    decreases |cs|
  {
    if k == 0 {
      StepSays(entries, cs[0], s, a);
      RunUnsaid(Step(entries, cs[0]), cs[1..], s, a);
    } else {
      LastCallDecides(Step(entries, cs[0]), cs[1..], s, a, k - 1);
    }
  }

  // ----- the replica's metadata -----

  /** The metadata of the first entry of an address. */
  function First(list: seq<Instance>, a: string): Option<Meta> {
    if list == [] then None else if list[0].addr == a then Some(list[0].meta) else First(list[1..], a)
  }

  lemma {:induction false} FirstConcat(x: seq<Instance>, y: seq<Instance>, a: string)
    ensures First(x + y, a) == if First(x, a).Some? then First(x, a) else First(y, a)
  {
    if x == [] {
      assert x + y == y;
    } else {
      assert (x + y)[1..] == x[1..] + y;
      FirstConcat(x[1..], y, a);
    }
  }

  lemma {:induction false} FirstListed(list: seq<Instance>, a: string)
    ensures First(list, a).Some? <==> a in AddrsOf(list)
    ensures First(list, a).Some? ==> exists i :: 0 <= i < |list| && list[i] == Instance(a, First(list, a).value)
  {
    if list != [] {
      FirstListed(list[1..], a);
      if list[0].addr == a {
        assert list[0] == Instance(a, First(list, a).value);
      } else {
        if First(list[1..], a).Some? {
          var i :| 0 <= i < |list[1..]| && list[1..][i] == Instance(a, First(list[1..], a).value);
          assert list[i + 1] == Instance(a, First(list, a).value);
        }
        if i :| 0 <= i < |list| && list[i].addr == a {
          assert list[1..][i - 1].addr == a;
        }
      }
    }
  }

  lemma {:induction false} FirstRemains(list: seq<Instance>, gone: set<string>, a: string)
    requires a !in gone
    ensures First(Remains(list, gone), a) == First(list, a)
  {
    if list != [] {
      var n := |list| - 1;
      FirstRemains(list[..n], gone, a);
      assert list == list[..n] + [list[n]];
      FirstConcat(list[..n], [list[n]], a);
      var kept := if list[n].addr in gone then [] else [list[n]];
      FirstConcat(Remains(list[..n], gone), kept, a);
    }
  }

  /** The first entry of every registered address carries the registered metadata. */
  ghost predicate Fresh(entries: Entries, s: string, list: seq<Instance>) {
    forall a | a in Instances(entries, s) :: First(list, a) == Some(Instances(entries, s)[a])
  }

  /** A register or unregister call keeps the replica fresh. */
  lemma StepFresh(entries: Entries, c: Call, s: string, list: seq<Instance>)
    requires !c.Bulk? && Fresh(entries, s, list)
    ensures Fresh(Step(entries, c), s, ReactList(entries, c, s, list))
  {
    var list' := ReactList(entries, c, s, list);
    forall a | a in Instances(Step(entries, c), s)
      ensures First(list', a) == Some(Instances(Step(entries, c), s)[a])
    {
      StepSays(entries, c, s, a);
      match c {
        case Register(t, b, meta) =>
          if t == s {
            assert list'[1..] == list;
          }
        case Unregister(t, b) =>
          if t == s {
            FirstRemains(list, Removed(entries, s, b), a);
          }
      }
    }
  }

  /** The list that the replica keeps for a service after a run. */
  function RunList(entries: Entries, cs: seq<Call>, s: string, list: seq<Instance>): seq<Instance>
    decreases |cs|
  {
    if cs == [] then list else RunList(Step(entries, cs[0]), cs[1..], s, ReactList(entries, cs[0], s, list))
  }

  /** After any run of register and unregister calls the first entry of each address carries the registry's metadata. */
  lemma {:induction false} RunFresh(entries: Entries, cs: seq<Call>, s: string, list: seq<Instance>)
    requires Fresh(entries, s, list) && forall i | 0 <= i < |cs| :: !cs[i].Bulk?
    ensures Fresh(Run(entries, cs), s, RunList(entries, cs, s, list))
    decreases |cs|
  {
    if cs != [] {
      StepFresh(entries, cs[0], s, list);
      RunFresh(Step(entries, cs[0]), cs[1..], s, ReactList(entries, cs[0], s, list));
    }
  }

  /** A replica that has just read the registry is fresh. */
  lemma ReadFresh(entries: Entries, s: string, list: seq<Instance>)
    requires Enumerates(list, Instances(entries, s))
    ensures Fresh(entries, s, list)
  {
    forall a | a in Instances(entries, s) ensures First(list, a) == Some(Instances(entries, s)[a]) {
      FirstListed(list, a);
    }
  }

  // ----- bulk calls -----

  lemma {:induction false} FirstNews(prev: set<string>, es: seq<Instance>, a: string)
    ensures var ms := Metas(es, a);
      First(News(prev, es), a) ==
        if a !in prev then (if ms == [] then None else Some(ms[0]))
        else if |ms| <= 1 then None else Some(ms[1])
  {
    if es != [] {
      var n := |es| - 1;
      FirstNews(prev, es[..n], a);
      MetasListed(es[..n], a);
      var last := if es[n].addr in prev && es[n].addr !in AddrsOf(es[..n]) then [] else [es[n]];
      FirstConcat(News(prev, es[..n]), last, a);
    }
  }

  /** The metadata announced first for a listed address, or else the one registered before, is the one listed last. */
  predicate KeepsMeta(prev: map<string, Meta>, es: seq<Instance>, a: string) {
    var ms := Metas(es, a);
    ms != [] ==>
      if a !in prev then ms[0] == ms[|ms| - 1]
      else if |ms| == 1 then prev[a] == ms[0]
      else ms[1] == ms[|ms| - 1]
  }

  /** A bulk call that names a service once keeps the replica fresh if and only if it keeps the metadata. */
  lemma BulkFresh(entries: Entries, names: seq<string>, es: seq<Instance>, s: string, list: seq<Instance>)
    requires s in names && !Twice(names, s)
    requires Fresh(entries, s, list) && AddrsOf(list) == Instances(entries, s).Keys
    ensures Fresh(Step(entries, Bulk(names, es)), s, ReactList(entries, Bulk(names, es), s, list))
      <==> forall a | a in AddrsOf(es) :: KeepsMeta(Instances(entries, s), es, a)
  {
    var prev := Instances(entries, s);
    var list' := ReactList(entries, Bulk(names, es), s, list);
    PutAllInstances(entries, names, InstanceMap(es), s);
    InstanceMapKeys(es);
    forall a | a in AddrsOf(es) ensures First(list', a) == Some(InstanceMap(es)[a]) <==> KeepsMeta(prev, es, a) {
      MetasListed(es, a);
      FirstNews(prev.Keys, es, a);
      FirstConcat(News(prev.Keys, es), list, a);
      FirstRemains(News(prev.Keys, es) + list, prev.Keys - AddrsOf(es), a);
    }
  }

  /** A bulk call may change the metadata of a registered address without telling the replica. */
  lemma StaleMeta()
    ensures var es := [Instance("a", Foreign(2))];
      var entries := map["s" := map["a" := Foreign(1)]];
      var list := ReactList(entries, Bulk(["s"], es), "s", [Instance("a", Foreign(1))]);
      !Fresh(Step(entries, Bulk(["s"], es)), "s", list)
  {
    var es, list := [Instance("a", Foreign(2))], [Instance("a", Foreign(1))];
    var entries: Entries := map["s" := map["a" := Foreign(1)]];
    assert list[0].addr == "a" && es[0].addr == "a";
    assert AddrsOf(list) == {"a"};
    assert es[..0] == [] && Metas(es, "a") == [] + [Foreign(2)];
    BulkFresh(entries, ["s"], es, "s", list);
    assert "a" in AddrsOf(es) && !KeepsMeta(Instances(entries, "s"), es, "a");
  }

  // ----- picks -----

  /** The address is listed once. */
  predicate ListedOnce(list: seq<Instance>, a: string) {
    forall i, j | 0 <= i < j < |list| :: !(list[i].addr == a && list[j].addr == a)
  }

  /**
   * What is picked for a service from a fresh list, if its address is listed once, has the registered TLS flag, and is
   * not an HTTP endpoint.
   */
  lemma PickedMeta(entries: Entries, s: string, list: seq<Instance>, p: AddressInfo)
    requires Fresh(entries, s, list) && AddrsOf(list) == Instances(entries, s).Keys
    requires p in Infos(s, list) && ListedOnce(list, p.addr)
    ensures p.addr in Instances(entries, s)
    ensures var m := Instances(entries, s)[p.addr];
      && p.tls == (m.Parsed? && m.tls)
      && (m.Parsed? && m.version >= 2 ==> m.kind != TYPE_HTTP)
      && (m.Parsed? && m.version < 2 ==> !(HTTP_PREFIX <= s))
  {
    InfosExact(s, list, p);
    var i :| 0 <= i < |list| && Eligible(s, list[i].meta) && InfoOf(list[i]) == p;
    assert list[i].addr == p.addr;
    FirstListed(list, p.addr);
    var j :| 0 <= j < |list| && list[j] == Instance(p.addr, First(list, p.addr).value);
    assert i == j by {
      assert list[j].addr == p.addr;
    }
  }

  /** Every instance that is not an HTTP endpoint is offered, with its own TLS flag. */
  lemma Offered(s: string, list: seq<Instance>, i: nat)
    requires i < |list|
    requires var m := list[i].meta;
      m.Parsed? ==> if m.version >= 2 then m.kind != TYPE_HTTP else !(HTTP_PREFIX <= s)
    ensures AddressInfo(list[i].addr, list[i].meta.Parsed? && list[i].meta.tls) in Infos(s, list)
  {
    InfosExact(s, list, InfoOf(list[i]));
  }
}
