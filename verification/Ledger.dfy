/** A ledger of one direction of the stream: which offer each accepted payload and each goroutine in `Send` carries. */
module Ledgers {
  import opened Pipes

  /** The payloads with which `Send` was entered, per goroutine in `Send` its offer, and the accepted offers. */
  datatype Ledger = Ledger(offered: seq<Payload>, held: map<nat, nat>, slots: seq<nat>)

  const NEW := Ledger([], map[], [])

  function Entry(p: Pipe, env: Env, l: Ledger, a: Action): Ledger
    requires Enabled(p, env, a)
  {
    match a
    case Begin(t, m) => Ledger(l.offered + [m], l.held[t := |l.offered|], l.slots)
    case Commit(t) => Ledger(l.offered, l.held - {t}, l.slots + if t in l.held then [l.held[t]] else [])
    case _ => Restricted(l, Step(p, env, a))
  }

  /** Some goroutine in `Send` carries the offer. */
  predicate Held(l: Ledger, k: nat) {
    exists t :: t in l.held && l.held[t] == k
  }

  /** Every goroutine in `Send` carries an offer of its own, with the payload of that offer. */
  ghost predicate HeldInv(p: Pipe, l: Ledger) {
    && (forall t | t in l.held :: t in p.senders)
    && (forall t | t in p.senders :: t in l.held)
    && (forall t | t in l.held && t in p.senders ::
          l.held[t] < |l.offered| && l.offered[l.held[t]] == p.senders[t].payload)
    && (forall t, u | t in l.held && u in l.held && t != u :: l.held[t] != l.held[u])
  }

  /** Every accepted payload carries an offer of its own, which no goroutine holds any more. */
  ghost predicate SlotsInv(accepted: seq<Payload>, l: Ledger) {
    && |l.slots| == |accepted|
    && (forall i | 0 <= i < |l.slots| :: l.slots[i] < |l.offered| && l.offered[l.slots[i]] == accepted[i])
    && (forall i, j | 0 <= i < j < |l.slots| :: l.slots[i] != l.slots[j])
    && (forall i, t | 0 <= i < |l.slots| && t in l.held :: l.slots[i] != l.held[t])
  }

  ghost predicate LedgerInv(p: Pipe, l: Ledger) {
    HeldInv(p, l) && SlotsInv(p.accepted, l)
  }

  /** No offer was dropped. */
  ghost predicate AllKept(l: Ledger) {
    forall k: nat | k < |l.offered| :: k in l.slots || Held(l, k)
  }

  lemma BeginHeld(p: Pipe, env: Env, l: Ledger, t: nat, m: Payload)
    requires HeldInv(p, l) && Enabled(p, env, Begin(t, m))
    ensures HeldInv(Step(p, env, Begin(t, m)), Entry(p, env, l, Begin(t, m)))
  {}

  lemma BeginKept(l: Ledger, t: nat, m: Payload)
    requires AllKept(l) && t !in l.held
    ensures AllKept(Ledger(l.offered + [m], l.held[t := |l.offered|], l.slots))
  {
    var l' := Ledger(l.offered + [m], l.held[t := |l.offered|], l.slots);
    forall k: nat | k < |l'.offered| ensures k in l'.slots || Held(l', k) {
      if k == |l.offered| {
        assert l'.held[t] == k;
      } else if Held(l, k) {
        var u :| u in l.held && l.held[u] == k;
        assert l'.held[u] == k;
      }
    }
  }

  lemma BeginEntry(p: Pipe, env: Env, l: Ledger, t: nat, m: Payload)
    requires LedgerInv(p, l) && Enabled(p, env, Begin(t, m))
    ensures LedgerInv(Step(p, env, Begin(t, m)), Entry(p, env, l, Begin(t, m)))
    ensures AllKept(l) ==> AllKept(Entry(p, env, l, Begin(t, m)))
  {
    BeginHeld(p, env, l, t, m);
    if AllKept(l) {
      BeginKept(l, t, m);
    }
  }

  lemma CommitHeld(p: Pipe, env: Env, l: Ledger, t: nat)
    requires HeldInv(p, l) && Enabled(p, env, Commit(t))
    ensures HeldInv(Step(p, env, Commit(t)), Entry(p, env, l, Commit(t)))
  {}

  lemma CommitSlots(accepted: seq<Payload>, l: Ledger, t: nat)
    requires SlotsInv(accepted, l) && t in l.held && l.held[t] < |l.offered|
    requires forall u | u in l.held && u != t :: l.held[u] != l.held[t]
    ensures SlotsInv(accepted + [l.offered[l.held[t]]], Ledger(l.offered, l.held - {t}, l.slots + [l.held[t]]))
  {}

  lemma CommitKept(l: Ledger, t: nat)
    requires AllKept(l) && t in l.held
    ensures AllKept(Ledger(l.offered, l.held - {t}, l.slots + [l.held[t]]))
  {
    var l' := Ledger(l.offered, l.held - {t}, l.slots + [l.held[t]]);
    forall k: nat | k < |l'.offered| ensures k in l'.slots || Held(l', k) {
      if Held(l, k) {
        var u :| u in l.held && l.held[u] == k;
        assert u != t ==> u in l'.held && l'.held[u] == k;
      }
    }
  }

  lemma CommitEntry(p: Pipe, env: Env, l: Ledger, t: nat)
    requires LedgerInv(p, l) && Enabled(p, env, Commit(t))
    ensures LedgerInv(Step(p, env, Commit(t)), Entry(p, env, l, Commit(t)))
    ensures AllKept(l) ==> AllKept(Entry(p, env, l, Commit(t)))
  {
    CommitHeld(p, env, l, t);
    CommitSlots(p.accepted, l, t);
    if AllKept(l) {
      CommitKept(l, t);
    }
  }

  /** A step that ends a call of `Send` without its payload. */
  predicate Loses(p: Pipe, env: Env, a: Action) {
    || (a.Acquire? && p.closed)
    || (a.CheckCancel? && env.cancelled)
    || a.Abort?
  }

  /** Goroutines may leave; those that stay keep their payload. */
  ghost predicate Narrows(p: Pipe, q: Pipe) {
    forall t | t in q.senders :: t in p.senders && q.senders[t].payload == p.senders[t].payload
  }

  function Restricted(l: Ledger, q: Pipe): Ledger {
    l.(held := map t | t in l.held && t in q.senders :: l.held[t])
  }

  lemma RestrictedHeld(p: Pipe, q: Pipe, l: Ledger)
    requires HeldInv(p, l) && Narrows(p, q)
    ensures HeldInv(q, Restricted(l, q))
    ensures q.senders.Keys == p.senders.Keys ==> Restricted(l, q) == l
  {
    if q.senders.Keys == p.senders.Keys {
      assert Restricted(l, q).held == l.held;
    }
  }

  lemma OtherNarrows(p: Pipe, env: Env, a: Action)
    requires Enabled(p, env, a) && !a.Begin? && !a.Commit?
    ensures Narrows(p, Step(p, env, a))
    ensures !Loses(p, env, a) ==> Step(p, env, a).senders.Keys == p.senders.Keys
  {}

  lemma OtherHeld(p: Pipe, env: Env, l: Ledger, a: Action)
    requires HeldInv(p, l) && Enabled(p, env, a) && !a.Begin? && !a.Commit?
    ensures HeldInv(Step(p, env, a), Entry(p, env, l, a))
    ensures !Loses(p, env, a) ==> Entry(p, env, l, a) == l
  {
    OtherNarrows(p, env, a);
    RestrictedHeld(p, Step(p, env, a), l);
  }

  lemma OtherEntry(p: Pipe, env: Env, l: Ledger, a: Action)
    requires LedgerInv(p, l) && Enabled(p, env, a) && !a.Begin? && !a.Commit?
    ensures LedgerInv(Step(p, env, a), Entry(p, env, l, a))
    ensures AllKept(l) && !Loses(p, env, a) ==> AllKept(Entry(p, env, l, a))
  {
    OtherHeld(p, env, l, a);
    assert Step(p, env, a).accepted == p.accepted;
  }

  /** Every step keeps the ledger; offers are dropped only by a closed or cancelled stream. */
  lemma EntryInv(p: Pipe, env: Env, l: Ledger, a: Action)
    requires LedgerInv(p, l) && Enabled(p, env, a)
    ensures LedgerInv(Step(p, env, a), Entry(p, env, l, a))
    ensures AllKept(l) && !Loses(p, env, a) ==> AllKept(Entry(p, env, l, a))
  {
    match a {
      case Begin(t, m) => BeginEntry(p, env, l, t, m);
      case Commit(t) => CommitEntry(p, env, l, t);
      case _ => OtherEntry(p, env, l, a);
    }
  }
}
