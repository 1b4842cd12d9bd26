/** The round-robin picker: a scan from a moving start that skips addresses the filter refuses. */
module RoundRobins {
  import opened Wrappers

  /** The position `i` places after `start` on a ring of `n`. */
  function Ring(n: nat, start: nat, i: nat): (r: nat)
    requires start < n && i <= n
    ensures r < n
  {
    if start + i < n then start + i else start + i - n
  }

  function Succ(n: nat, p: nat): (r: nat)
    requires p < n
    ensures r < n && r == Ring(n, p, 1)
  {
    if p + 1 == n then 0 else p + 1
  }

  lemma SuccModulo(n: nat, p: nat)
    requires p < n
    ensures (p + 1) % n == Succ(n, p)
  {}

  predicate Available(avail: seq<bool>, p: nat) {
    p < |avail| && avail[p]
  }

  /** How many of the next `k` positions are passed over before an available one. */
  function Distance(avail: seq<bool>, start: nat, k: nat): (d: nat)
    requires start < |avail| && k <= |avail|
    ensures d <= k
    ensures d < k ==> avail[Ring(|avail|, start, d)]
    ensures forall i | 0 <= i < d :: !avail[Ring(|avail|, start, i)]
  {
    if k == 0 then 0
    else
      var d := Distance(avail, start, k - 1);
      if d < k - 1 || avail[Ring(|avail|, start, d)] then d else k
  }

  /** The position that a pick from `next` returns. */
  function Chosen(avail: seq<bool>, next: nat): (p: nat)
    requires next < |avail|
    ensures p < |avail|
  {
    Ring(|avail|, next, Distance(avail, next, |avail|))
  }

  predicate Any(avail: seq<bool>) {
    exists p: nat :: p < |avail| && Available(avail, p)
  }

  /** The offset from `start` at which the ring reaches `p`. */
  function Offset(n: nat, start: nat, p: nat): (i: nat)
    requires start < n && p < n
    ensures i < n && Ring(n, start, i) == p
    ensures forall j: nat | j < n && Ring(n, start, j) == p :: j == i
  {
    if p >= start then p - start else p + n - start
  }

  /** A scan of the whole ring finds something iff anything is available. */
  lemma FoundIffAny(avail: seq<bool>, next: nat)
    requires next < |avail|
    ensures Distance(avail, next, |avail|) < |avail| <==> Any(avail)
    ensures Any(avail) ==> avail[Chosen(avail, next)]
  {
    var n := |avail|;
    var d := Distance(avail, next, n);
    if d < n {
      assert Available(avail, Ring(n, next, d));
    } else if p: nat :| p < n && Available(avail, p) {
      var i := Offset(n, next, p);
      assert avail[Ring(n, next, i)];
    }
  }

  lemma FirstFound(avail: seq<bool>, next: nat, k: nat)
    requires next < |avail| && k < |avail| && avail[Ring(|avail|, next, k)]
    requires forall i | 0 <= i < k :: !avail[Ring(|avail|, next, i)]
    ensures Any(avail) && Chosen(avail, next) == Ring(|avail|, next, k)
  {
    assert Available(avail, Ring(|avail|, next, k));
    assert Distance(avail, next, |avail|) == k;
  }

  lemma NoneFound(avail: seq<bool>, next: nat)
    requires next < |avail|
    requires forall i | 0 <= i < |avail| :: !avail[Ring(|avail|, next, i)]
    ensures !Any(avail)
  {
    FoundIffAny(avail, next);
  }

  class RoundRobinPicker<A> {
    const addrs: seq<A>
    const isAddressAvailable: Option<A -> bool>
    var next: nat

    predicate Valid()
      reads this
    {
      next < |addrs| || (addrs == [] && next == 0)
    }

    /** Which positions the filter lets through; without a filter, all. */
    function Avail(): (r: seq<bool>)
      ensures |r| == |addrs|
    {
      seq(|addrs|, i requires 0 <= i < |addrs| => isAddressAvailable.None? || isAddressAvailable.value(addrs[i]))
    }

    constructor (addrs: seq<A>, isAddressAvailable: Option<A -> bool>)
      ensures Valid() && next == 0 && this.addrs == addrs && this.isAddressAvailable == isAddressAvailable
    {
      this.addrs, this.isAddressAvailable, next := addrs, isAddressAvailable, 0;
    }

    method Advance()
      requires next < |addrs|
      modifies this`next
      ensures next == Succ(|addrs|, old(next))
    {
      SuccModulo(|addrs|, next);
      next := (next + 1) % |addrs|;
    }

    /** Returns the first available address from `next` on, after at most one turn; fails iff there is none. */
    method Pick() returns (r: Option<A>, ghost scans: nat)
      requires Valid()
      modifies this`next
      ensures Valid()
      ensures r.Some? <==> Any(Avail())
      ensures r.Some? ==> r.value == addrs[Chosen(Avail(), old(next))]
      ensures r.Some? ==> next == Succ(|addrs|, Chosen(Avail(), old(next)))
      ensures r.None? ==> next == old(next)
      ensures scans <= |addrs|
    {
      scans := 0;
      if |addrs| == 0 {
        return None, 0;
      }
      ghost var n := |addrs|;
      ghost var avail := Avail();
      if isAddressAvailable.Some? {
        var cur := next;
        while true
          invariant scans < n && next == Ring(n, cur, scans)
          invariant forall i | 0 <= i < scans :: !avail[Ring(n, cur, i)]
          decreases n - scans
        {
          var addr := addrs[next];
          Advance();
          scans := scans + 1;
          assert next == Ring(n, cur, scans);
          if isAddressAvailable.value(addr) {
            FirstFound(avail, cur, scans - 1);
            return Some(addr), scans;
          }
          if next == cur {
            NoneFound(avail, cur);
            return None, scans;
          }
        }
      } else {
        var addr := addrs[next];
        FirstFound(avail, next, 0);
        Advance();
        return Some(addr), 1;
      }
    }
  }

  // ----- fairness -----

  /** The positions that `k` picks in a row return, with a fixed filter. */
  function Picks(avail: seq<bool>, next: nat, k: nat): (ps: seq<nat>)
    requires next < |avail|
    ensures |ps| == k
    decreases k
  {
    if k == 0 then []
    else
      var p := Chosen(avail, next);
      [p] + Picks(avail, Succ(|avail|, p), k - 1)
  }

  /** The available positions met on the rest of one turn, from offset `o` on. */
  function Turn(avail: seq<bool>, start: nat, o: nat): seq<nat>
    requires start < |avail| && o <= |avail|
    decreases |avail| - o
  {
    if o == |avail| then []
    else
      var p := Ring(|avail|, start, o);
      (if avail[p] then [p] else []) + Turn(avail, start, o + 1)
  }

  /** A pick that starts at an unavailable position does what a pick from the next one does. */
  lemma Skip(avail: seq<bool>, p: nat)
    requires p < |avail| && !avail[p] && Any(avail)
    ensures Chosen(avail, p) == Chosen(avail, Succ(|avail|, p))
  {
    var n := |avail|;
    FoundIffAny(avail, p);
    var d := Distance(avail, p, n);
    assert Ring(n, p, 0) == p;
    var p' := Ring(n, p, 1);
    assert forall i | 0 <= i < d :: Ring(n, p', i) == Ring(n, p, i + 1);
    assert avail[Ring(n, p', d - 1)];
    assert Distance(avail, p', n) == d - 1;
  }

  lemma SkipPicks(avail: seq<bool>, p: nat, k: nat)
    requires p < |avail| && !avail[p] && Any(avail) && k > 0
    ensures Picks(avail, p, k) == Picks(avail, Succ(|avail|, p), k)
  {
    Skip(avail, p);
  }

  /** Picks follow the turn. */
  lemma {:induction false} PicksAreTurn(avail: seq<bool>, start: nat, o: nat)
    requires start < |avail| && o <= |avail|
    ensures var ps := Turn(avail, start, o); Picks(avail, Ring(|avail|, start, o), |ps|) == ps
    decreases |avail| - o
  {
    var n := |avail|;
    if o < n {
      var p := Ring(n, start, o);
      assert Ring(n, start, o + 1) == Succ(n, p);
      PicksAreTurn(avail, start, o + 1);
      var rest := Turn(avail, start, o + 1);
      if avail[p] {
        FirstFound(avail, p, 0);
      } else if rest != [] {
        TurnElements(avail, start, o + 1, rest[0]);
        assert Available(avail, rest[0]);
        SkipPicks(avail, p, |rest|);
      }
    }
  }

  /** A turn meets exactly the available positions that lie ahead. */
  lemma {:induction false} TurnElements(avail: seq<bool>, start: nat, o: nat, p: nat)
    requires start < |avail| && o <= |avail|
    ensures p in Turn(avail, start, o) <==> Available(avail, p) && Offset(|avail|, start, p) >= o
    decreases |avail| - o
  {
    if o < |avail| {
      TurnElements(avail, start, o + 1, p);
    }
  }

  predicate Distinct(ps: seq<nat>) {
    forall i, j | 0 <= i < j < |ps| :: ps[i] != ps[j]
  }

  lemma {:induction false} TurnDistinct(avail: seq<bool>, start: nat, o: nat)
    requires start < |avail| && o <= |avail|
    ensures Distinct(Turn(avail, start, o))
    decreases |avail| - o
  {
    if o < |avail| {
      TurnDistinct(avail, start, o + 1);
      var p := Ring(|avail|, start, o);
      TurnElements(avail, start, o + 1, p);
      assert Offset(|avail|, start, p) == o;
    }
  }

  /** The available positions. */
  function Positions(avail: seq<bool>): (ps: set<nat>) {
    set p: nat | p < |avail| && Available(avail, p)
  }

  lemma {:induction false} DistinctLength(ps: seq<nat>, s: set<nat>)
    requires Distinct(ps) && forall p: nat :: p in ps <==> p in s
    ensures |ps| == |s|
  {
    if ps == [] {
      assert forall p: nat :: p in s <==> p in ps;
      assert s == {};
    } else {
      var tail := ps[1..];
      forall p: nat ensures p in tail <==> p in s - {ps[0]} {
        if p in s - {ps[0]} {
          var i :| 0 <= i < |ps| && ps[i] == p;
          assert tail[i - 1] == p;
        }
      }
      DistinctLength(tail, s - {ps[0]});
      assert ps[0] in s;
    }
  }

  /** The picks return each available position exactly once. */
  ghost predicate EachOnce(avail: seq<bool>, ps: seq<nat>) {
    Distinct(ps) && forall p: nat :: p in ps <==> Available(avail, p)
  }

  /** As many picks as there are available positions, from any start, return each of them exactly once. */
  lemma Fair(avail: seq<bool>, next: nat)
    requires next < |avail|
    ensures EachOnce(avail, Picks(avail, next, |Positions(avail)|))
  {
    var ps := Turn(avail, next, 0);
    PicksAreTurn(avail, next, 0);
    TurnDistinct(avail, next, 0);
    forall p: nat ensures p in ps <==> Available(avail, p) {
      TurnElements(avail, next, 0, p);
    }
    DistinctLength(ps, Positions(avail));
  }

  lemma {:induction false} PicksLast(avail: seq<bool>, next: nat, k: nat)
    requires next < |avail|
    ensures Picks(avail, next, k + 1)[..k] == Picks(avail, next, k)
    decreases k
  {
    if k > 0 {
      var next' := Succ(|avail|, Chosen(avail, next));
      PicksLast(avail, next', k - 1);
      var ps := Picks(avail, next', k);
      assert ([Chosen(avail, next)] + ps)[..k] == [Chosen(avail, next)] + ps[..k - 1];
    }
  }

  lemma PeriodicFirst(avail: seq<bool>, next: nat)
    requires next < |avail| && Any(avail)
    ensures var m := |Positions(avail)|; m >= 1 && Picks(avail, next, m + 1)[m] == Picks(avail, next, m + 1)[0]
  {
    var m := |Positions(avail)|;
    Fair(avail, next);
    FoundIffAny(avail, next);
    assert Chosen(avail, next) in Positions(avail) by {
      assert Available(avail, Chosen(avail, next));
    }
    var next' := Succ(|avail|, Chosen(avail, next));
    Fair(avail, next');
    PicksLast(avail, next, m);
    MissingOne(avail, Picks(avail, next, m + 1));
  }

  /** With `m` positions available the picks repeat with period `m`, from any pick on. */
  lemma {:induction false} Periodic(avail: seq<bool>, next: nat, k: nat)
    requires next < |avail| && Any(avail)
    ensures var m := |Positions(avail)|;
      m >= 1 && Picks(avail, next, k + m + 1)[k + m] == Picks(avail, next, k + m + 1)[k]
    decreases k
  {
    PeriodicFirst(avail, next);
    if k > 0 {
      Periodic(avail, Succ(|avail|, Chosen(avail, next)), k - 1);
    }
  }

  lemma MissingOne(avail: seq<bool>, ps: seq<nat>)
    requires |ps| >= 2 && EachOnce(avail, ps[..|ps| - 1]) && EachOnce(avail, ps[1..])
    ensures ps[|ps| - 1] == ps[0]
  {
    var m := |ps| - 1;
    assert ps[..m][0] in ps[..m];
    assert ps[0] in ps[1..];
    var i :| 0 <= i < m && ps[1..][i] == ps[0];
    assert ps[i + 1] == ps[0];
    assert forall j | 0 < j < m :: ps[..m][j] == ps[j] != ps[0];
  }
}
