/**
 * Registry calls that run at the same time. A call changes the registry under its lock and sends its notifications
 * after it, so notifications of different calls may reach the replica in any order.
 */
module RegistryOrder {
  import opened Wrappers
  import opened Discoveries
  import opened Registries

  /** One notification: addresses of a service that came or went. */
  datatype Notice = Notice(s: string, add: bool, addrs: set<string>)

  predicate Mentions(n: Notice, s: string, a: string) {
    n.s == s && a in n.addrs
  }

  /** Whether an address is known after some notifications. */
  function After(ns: seq<Notice>, s: string, a: string, before: bool): bool {
    if ns == [] then before
    else
      var n := ns[|ns| - 1];
      if Mentions(n, s, a) then n.add else After(ns[..|ns| - 1], s, a, before)
  }

  /** What the last notification about an address says, if there is one. */
  function LastSaid(ns: seq<Notice>, s: string, a: string): Option<bool> {
    if ns == [] then None
    else
      var n := ns[|ns| - 1];
      if Mentions(n, s, a) then Some(n.add) else LastSaid(ns[..|ns| - 1], s, a)
  }

  lemma {:induction false} AfterIsLast(ns: seq<Notice>, s: string, a: string, before: bool)
    ensures After(ns, s, a, before) == match LastSaid(ns, s, a) case None => before case Some(b) => b
  {
    if ns != [] {
      AfterIsLast(ns[..|ns| - 1], s, a, before);
    }
  }

  lemma {:induction false} LastSaidSome(ns: seq<Notice>, s: string, a: string)
    ensures LastSaid(ns, s, a).Some? <==> exists n :: n in multiset(ns) && Mentions(n, s, a)
  {
    if ns != [] {
      var last := |ns| - 1;
      LastSaidSome(ns[..last], s, a);
      assert ns == ns[..last] + [ns[last]];
      assert multiset(ns) == multiset(ns[..last]) + multiset{ns[last]};
    }
  }

  lemma {:induction false} AfterAppend(ns: seq<Notice>, ms: seq<Notice>, s: string, a: string, before: bool)
    ensures After(ns + ms, s, a, before) == After(ms, s, a, After(ns, s, a, before))
  {
    if ms == [] {
      assert ns + ms == ns;
    } else {
      var all, k := ns + ms, |ms| - 1;
      assert all[..|all| - 1] == ns + ms[..k] && all[|all| - 1] == ms[k];
      AfterAppend(ns, ms[..k], s, a, before);
    }
  }

  /** A notification does to the replica what it says. */
  lemma DeliveredSeen(v: Services, n: Notice, instances: seq<Instance>, t: string, a: string)
    requires AddrsOf(instances) == n.addrs
    ensures var v' := if n.add then Updated(v, n.s, instances) else Deleted(v, n.s, instances);
      a in Seen(v', t) <==> After([n], t, a, a in Seen(v, t))
  {
    UpdatedSeen(v, n.s, instances, t);
    DeletedSeen(v, n.s, instances, t);
    assert [n][..0] == [];
  }

  // ----- the notifications of a call -----

  function Pair(entries: Entries, names: seq<string>, es: seq<Instance>, s: string): seq<Notice> {
    var prev := PrevAt(entries, names, es, s);
    [Notice(s, true, AddrsOf(News(prev, es))), Notice(s, false, prev - AddrsOf(es))]
  }

  /** Of each name, at its last mention among the first `k`. */
  function BulkNotices(entries: Entries, names: seq<string>, es: seq<Instance>, k: nat): seq<Notice>
    requires k <= |names|
  {
    if k == 0 then []
    else
      BulkNotices(entries, names, es, k - 1)
      + if names[k - 1] in names[k..] then [] else Pair(entries, names, es, names[k - 1])
  }

  function NoticesOf(entries: Entries, c: Call): seq<Notice> {
    match c
    case Register(s, addr, _) => [Notice(s, true, {addr})]
    case Unregister(s, addr) => [Notice(s, false, Removed(entries, s, addr))]
    case Bulk(names, es) => BulkNotices(entries, names, es, |names|)
  }

  lemma PairAfter(entries: Entries, names: seq<string>, es: seq<Instance>, t: string, s: string, a: string, b: bool)
    ensures var prev := PrevAt(entries, names, es, t);
      After(Pair(entries, names, es, t), s, a, b) ==
        if s == t then (b || a in AddrsOf(News(prev, es))) && a !in prev - AddrsOf(es) else b
  {
    var p := Pair(entries, names, es, t);
    assert p[..1] == [p[0]] && [p[0]][..0] == [];
    assert After([p[0]], s, a, b) == if Mentions(p[0], s, a) then true else b;
  }

  lemma {:induction false} BulkAfter(
    entries: Entries, names: seq<string>, es: seq<Instance>, k: nat, s: string, a: string, b: bool)
    requires k <= |names|
    ensures var prev := PrevAt(entries, names, es, s);
      After(BulkNotices(entries, names, es, k), s, a, b) ==
        if s in names && s !in names[k..] then (b || a in AddrsOf(News(prev, es))) && a !in prev - AddrsOf(es) else b
  {
    if k == 0 {
      assert names[0..] == names;
    } else {
      var t := names[k - 1];
      assert names[k - 1..] == [t] + names[k..];
      BulkAfter(entries, names, es, k - 1, s, a, b);
      if t !in names[k..] {
        AfterAppend(BulkNotices(entries, names, es, k - 1), Pair(entries, names, es, t), s, a, b);
        PairAfter(entries, names, es, t, s, a, After(BulkNotices(entries, names, es, k - 1), s, a, b));
      } else {
        assert BulkNotices(entries, names, es, k - 1) + [] == BulkNotices(entries, names, es, k - 1);
      }
    }
  }

  /** Delivered alone, the notifications of a call are the reaction of the replica to it. */
  lemma NoticesReact(entries: Entries, c: Call, s: string, a: string, seen: set<string>)
    ensures a in React(entries, c, s, seen) <==> After(NoticesOf(entries, c), s, a, a in seen)
  {
    match c {
      case Register(t, addr, _) => assert NoticesOf(entries, c)[..0] == [];
      case Unregister(t, addr) => assert NoticesOf(entries, c)[..0] == [];
      case Bulk(names, es) =>
        assert names[|names|..] == [];
        BulkAfter(entries, names, es, |names|, s, a, a in seen);
    }
  }

  // ----- the step relation -----

  /**
   * The registry, per call its notifications still to be sent, and two histories: all notifications in the order of
   * their calls' locks, and those delivered in the order of delivery.
   */
  datatype System = System(
    entries: Entries,
    flights: seq<seq<Notice>>,
    log: seq<Notice>,
    delivered: seq<Notice>)

  datatype Action = Lock(c: Call) | Deliver(i: nat)

  function Start(entries: Entries): System {
    System(entries, [], [], [])
  }

  predicate Enabled(x: System, e: Action) {
    e.Deliver? ==> e.i < |x.flights| && x.flights[e.i] != []
  }

  function Act(x: System, e: Action): System
    requires Enabled(x, e)
  {
    match e
    case Lock(c) =>
      var ns := NoticesOf(x.entries, c);
      System(Step(x.entries, c), x.flights + [ns], x.log + ns, x.delivered)
    case Deliver(i) =>
      var ns := x.flights[i];
      x.(flights := x.flights[i := ns[1..]], delivered := x.delivered + [ns[0]])
  }

  /** The state after a run in which every action is enabled and every call is tame. */
  function Acts(x: System, es: seq<Action>): Option<System>
    decreases |es|
  {
    if es == [] then Some(x)
    else if Enabled(x, es[0]) && (es[0].Lock? ==> Tame(x.entries, es[0].c)) then Acts(Act(x, es[0]), es[1..])
    else None
  }

  /** Every call has sent all its notifications. */
  predicate Quiet(x: System) {
    forall i | 0 <= i < |x.flights| :: x.flights[i] == []
  }

  function Waiting(flights: seq<seq<Notice>>): multiset<Notice> {
    if flights == [] then multiset{}
    else Waiting(flights[..|flights| - 1]) + multiset(flights[|flights| - 1])
  }

  /** The registry is what the log says, and every notification is delivered or waiting. */
  ghost predicate Inv(first: Entries, x: System) {
    && multiset(x.log) == multiset(x.delivered) + Waiting(x.flights)
    && forall s, a :: LogSays(first, x, s, a)
  }

  ghost predicate LogSays(first: Entries, x: System, s: string, a: string) {
    a in Instances(x.entries, s) <==> After(x.log, s, a, a in Instances(first, s))
  }

  lemma LockSays(first: Entries, x: System, c: Call, s: string, a: string)
    requires LogSays(first, x, s, a) && Tame(x.entries, c)
    ensures LogSays(first, Act(x, Lock(c)), s, a)
  {
    StepAgrees(x.entries, c);
    NoticesReact(x.entries, c, s, a, Instances(x.entries, s).Keys);
    AfterAppend(x.log, NoticesOf(x.entries, c), s, a, a in Instances(first, s));
  }

  lemma WaitingAppend(flights: seq<seq<Notice>>, ns: seq<Notice>)
    ensures Waiting(flights + [ns]) == Waiting(flights) + multiset(ns)
  {
    assert (flights + [ns])[..|flights|] == flights;
  }

  lemma {:induction false} WaitingTake(flights: seq<seq<Notice>>, i: nat)
    requires i < |flights| && flights[i] != []
    ensures Waiting(flights) == Waiting(flights[i := flights[i][1..]]) + multiset{flights[i][0]}
  {
    var k := |flights| - 1;
    var less := flights[i := flights[i][1..]];
    if i == k {
      assert less[..k] == flights[..k];
      assert flights[k] == [flights[k][0]] + flights[k][1..];
    } else {
      WaitingTake(flights[..k], i);
      assert less[..k] == flights[..k][i := flights[i][1..]];
    }
  }

  lemma ActInv(first: Entries, x: System, e: Action)
    requires Inv(first, x) && Enabled(x, e) && (e.Lock? ==> Tame(x.entries, e.c))
    ensures Inv(first, Act(x, e))
  {
    match e {
      case Lock(c) =>
        WaitingAppend(x.flights, NoticesOf(x.entries, c));
        forall s, a ensures LogSays(first, Act(x, e), s, a) {
          assert LogSays(first, x, s, a);
          LockSays(first, x, c, s, a);
        }
      case Deliver(i) =>
        WaitingTake(x.flights, i);
        forall s, a ensures LogSays(first, Act(x, e), s, a) {
          assert LogSays(first, x, s, a);
        }
    }
  }

  lemma {:induction false} ActsInv(first: Entries, x: System, es: seq<Action>)
    requires Inv(first, x) && Acts(x, es).Some?
    ensures Inv(first, Acts(x, es).value)
    decreases |es|
  {
    if es != [] {
      ActInv(first, x, es[0]);
      ActsInv(first, Act(x, es[0]), es[1..]);
    }
  }

  lemma {:induction false} QuietWaiting(flights: seq<seq<Notice>>)
    requires forall i | 0 <= i < |flights| :: flights[i] == []
    ensures Waiting(flights) == multiset{}
  {
    if flights != [] {
      QuietWaiting(flights[..|flights| - 1]);
    }
  }

  /** What a replica that agreed with the registry at first knows. */
  predicate Knows(first: Entries, x: System, s: string, a: string) {
    After(x.delivered, s, a, a in Instances(first, s))
  }

  /**
   * However calls and deliveries interleave, once all notifications are out the replica agrees with the registry on
   * an address if and only if the last notification about it that was delivered says what the last one in the order
   * of the locks says.
   */
  lemma OrderExact(first: Entries, es: seq<Action>, s: string, a: string)
    requires Acts(Start(first), es).Some? && Quiet(Acts(Start(first), es).value)
    ensures var x := Acts(Start(first), es).value;
      (Knows(first, x, s, a) <==> a in Instances(x.entries, s))
      <==> LastSaid(x.delivered, s, a) == LastSaid(x.log, s, a)
  {
    var x := Acts(Start(first), es).value;
    forall t, b ensures LogSays(first, Start(first), t, b) {}
    ActsInv(first, Start(first), es);
    QuietWaiting(x.flights);
    assert LogSays(first, x, s, a);
    AfterIsLast(x.log, s, a, a in Instances(first, s));
    AfterIsLast(x.delivered, s, a, a in Instances(first, s));
    LastSaidSome(x.log, s, a);
    LastSaidSome(x.delivered, s, a);
  }

  /** The notifications of one service. */
  function OfService(ns: seq<Notice>, s: string): seq<Notice> {
    if ns == [] then []
    else
      var last := |ns| - 1;
      OfService(ns[..last], s) + if ns[last].s == s then [ns[last]] else []
  }

  lemma {:induction false} LastOfService(ns: seq<Notice>, s: string, a: string)
    ensures LastSaid(OfService(ns, s), s, a) == LastSaid(ns, s, a)
  {
    if ns != [] {
      var last := |ns| - 1;
      LastOfService(ns[..last], s, a);
      var before := OfService(ns[..last], s);
      if ns[last].s == s {
        assert (before + [ns[last]])[..|before|] == before;
      } else {
        assert before + [] == before;
      }
    }
  }

  /** Delivering each service's notifications in the order of the locks is enough. */
  lemma ServiceOrderAgrees(first: Entries, es: seq<Action>, s: string, a: string)
    requires Acts(Start(first), es).Some? && Quiet(Acts(Start(first), es).value)
    requires var x := Acts(Start(first), es).value; OfService(x.delivered, s) == OfService(x.log, s)
    ensures var x := Acts(Start(first), es).value; Knows(first, x, s, a) <==> a in Instances(x.entries, s)
  {
    var x := Acts(Start(first), es).value;
    LastOfService(x.delivered, s, a);
    LastOfService(x.log, s, a);
    OrderExact(first, es, s, a);
  }

  /** The lock does not order deliveries: an address registered and removed may stay known for good. */
  lemma StaleAddress()
    ensures var es := [Lock(Register("s", "a", Foreign(0))), Lock(Unregister("s", "a")), Deliver(1), Deliver(0)];
      var x := Acts(Start(map[]), es);
      && x.Some? && Quiet(x.value)
      && Knows(map[], x.value, "s", "a") && "a" !in Instances(x.value.entries, "s")
  {
    var c, d := Register("s", "a", Foreign(0)), Unregister("s", "a");
    var es := [Lock(c), Lock(d), Deliver(1), Deliver(0)];
    var x0 := Start(map[]);
    var x1 := Act(x0, Lock(c));
    var x2 := Act(x1, Lock(d));
    var up, down := Notice("s", true, {"a"}), Notice("s", false, {"a"});
    assert x1.entries == map["s" := map["a" := Foreign(0)]];
    assert x2.entries == map[];
    assert Removed(x1.entries, "s", "a") == {"a"};
    assert NoticesOf(x0.entries, c) == [up] && NoticesOf(x1.entries, d) == [down];
    assert x1.flights == [[up]] && x2.flights == [[up], [down]];
    var x3 := Act(x2, Deliver(1));
    assert [down][1..] == [] && x3.flights == [[up], []] && x3.delivered == [down];
    var x4 := Act(x3, Deliver(0));
    assert [up][1..] == [] && x4.flights == [[], []] && x4.delivered == [down, up];
    assert es[1..] == [Lock(d), Deliver(1), Deliver(0)] && es[1..][1..] == [Deliver(1), Deliver(0)];
    assert es[1..][1..][1..] == [Deliver(0)] && [Deliver(0)][1..] == [];
    assert Acts(x3, [Deliver(0)]) == Some(x4);
    assert Acts(x2, [Deliver(1), Deliver(0)]) == Some(x4);
    assert Acts(x1, es[1..]) == Some(x4);
  }
}
