/** Which pattern the search finds when several match: the least way through the trie, edge by edge. */
module SearchOrder {
  import opened Wrappers
  import opened Search

  /**
   * One step of a way through the trie: over the edge that the component labels, over the `*` edge, over the `**`
   * edge to go on from a position, or over the `**` edge to take all that is left.
   */
  datatype Step = ByLiteral | ByStar | ByDeep(i: nat) | ByEnd

  /** Where a way ends, `None` if the trie has no such way or components are left over. */
  ghost function Walk<M>(t: Trie<M>, at: Path, comps: seq<string>, d: seq<Step>): (r: Option<Path>)
    requires at in t
    ensures r.Some? ==> r.value in t
    decreases |d|, 0
  {
    if d == [] then (if comps == [] then Some(at) else None)
    else if comps == [] || comps[0] == "" then None
    else
      match d[0]
      case ByLiteral => if at + [comps[0]] in t then Walk(t, at + [comps[0]], comps[1..], d[1..]) else None
      case ByStar => if at + ["*"] in t then Walk(t, at + ["*"], comps[1..], d[1..]) else None
      case ByDeep(i) => if at + ["**"] in t && i < |comps| then WalkOn(t, at + ["**"], comps, i, d[1..]) else None
      case ByEnd => if at + ["**"] in t && |d| == 1 then Some(at + ["**"]) else None
  }

  /** Below a `**` node: at a component that labels an edge, or behind one that does not if there is a `*` edge. */
  ghost function WalkOn<M>(t: Trie<M>, at: Path, comps: seq<string>, i: nat, d: seq<Step>): (r: Option<Path>)
    requires at in t && i < |comps|
    ensures r.Some? ==> r.value in t
    decreases |d|, 1
  {
    if at + [comps[i]] in t then Walk(t, at, comps[i..], d)
    else if at + ["*"] in t then Walk(t, at, comps[i + 1..], d)
    else None
  }

  ghost predicate Ends<M>(t: Trie<M>, r: Option<Path>) {
    r.Some? && r.value in t && t[r.value] != []
  }

  /** The way ends at a stored pattern. */
  ghost predicate Hit<M>(t: Trie<M>, at: Path, comps: seq<string>, d: seq<Step>)
    requires at in t
  {
    Ends(t, Walk(t, at, comps, d))
  }

  function Rank(s: Step): nat {
    match s
    case ByLiteral => 0
    case ByStar => 1
    case ByDeep(_) => 2
    case ByEnd => 3
  }

  /** Literal before `*` before `**`; below `**` the earlier position first, and the node itself last. */
  predicate Before(a: Step, b: Step) {
    Rank(a) < Rank(b) || (a.ByDeep? && b.ByDeep? && a.i < b.i)
  }

  /** The order of ways: at their first different step the smaller one comes first. */
  predicate AtMost(d: seq<Step>, e: seq<Step>)
    decreases |d|
  {
    d == [] || (e != [] && (Before(d[0], e[0]) || (d[0] == e[0] && AtMost(d[1..], e[1..]))))
  }

  ghost predicate Least<M>(t: Trie<M>, at: Path, comps: seq<string>, d: seq<Step>)
    requires at in t
  {
    Hit(t, at, comps, d) && forall e: seq<Step> | Hit(t, at, comps, e) :: AtMost(d, e)
  }

  /** Below a `**` node, from a position on. */
  ghost predicate LeastFrom<M>(t: Trie<M>, at: Path, comps: seq<string>, i: nat, j: nat, d: seq<Step>)
    requires at in t
  {
    && i <= j < |comps| && Ends(t, WalkOn(t, at, comps, j, d))
    && forall k: nat, e: seq<Step> | i <= k < |comps| && Ends(t, WalkOn(t, at, comps, k, e)) ::
         j < k || (j == k && AtMost(d, e))
  }

  ghost predicate NoneFrom<M>(t: Trie<M>, at: Path, comps: seq<string>, i: nat)
    requires at in t
  {
    forall k: nat, e: seq<Step> | i <= k < |comps| :: !Ends(t, WalkOn(t, at, comps, k, e))
  }

  // ----- the search finds the least way -----

  lemma {:induction false} FindLeast<M>(t: Trie<M>, at: Path, comps: seq<string>) returns (d: seq<Step>)
    requires at in t
    ensures var r := Find(t, at, comps);
      if r.Some? then Walk(t, at, comps, d) == r && Least(t, at, comps, d)
      else forall e: seq<Step> :: !Hit(t, at, comps, e)
    decreases |comps|, Below(t, at), 1, 0
  {
    d := [];
    if comps == [] {
      assert Walk(t, at, comps, []) == Some(at);
    } else if comps[0] != "" {
      var lit := at + [comps[0]];
      var d1, d2 := [], [];
      if lit in t {
        d1 := FindLeast(t, lit, comps[1..]);
      }
      if lit in t && Find(t, lit, comps[1..]).Some? {
        d := [ByLiteral] + d1;
        LeastLiteral(t, at, comps, d1);
      } else {
        if at + ["*"] in t {
          d2 := FindLeast(t, at + ["*"], comps[1..]);
        }
        if at + ["*"] in t && Find(t, at + ["*"], comps[1..]).Some? {
          d := [ByStar] + d2;
          LeastStar(t, at, comps, d2);
        } else {
          d := FindLeastDeep(t, at, comps);
        }
      }
    }
  }

  /** A way that ends at a stored pattern goes on, behind its first step, from where the step leads. */
  lemma FirstStep<M>(t: Trie<M>, at: Path, comps: seq<string>, e: seq<Step>)
    requires at in t && comps != [] && Hit(t, at, comps, e)
    ensures e != [] && comps[0] != ""
    ensures e[0] == ByLiteral ==> at + [comps[0]] in t && Hit(t, at + [comps[0]], comps[1..], e[1..])
    ensures e[0] == ByStar ==> at + ["*"] in t && Hit(t, at + ["*"], comps[1..], e[1..])
    ensures e[0].ByDeep? ==>
      at + ["**"] in t && e[0].i < |comps| && Ends(t, WalkOn(t, at + ["**"], comps, e[0].i, e[1..]))
    ensures e[0] == ByEnd ==> e == [ByEnd] && at + ["**"] in t
  {}

  lemma LeastLiteral<M>(t: Trie<M>, at: Path, comps: seq<string>, d1: seq<Step>)
    requires at in t && comps != [] && comps[0] != "" && at + [comps[0]] in t
    requires Least(t, at + [comps[0]], comps[1..], d1)
    ensures Least(t, at, comps, [ByLiteral] + d1)
    ensures Walk(t, at, comps, [ByLiteral] + d1) == Walk(t, at + [comps[0]], comps[1..], d1)
  {
    var d := [ByLiteral] + d1;
    assert d[1..] == d1;
    forall e: seq<Step> | Hit(t, at, comps, e) ensures AtMost(d, e) {
      FirstStep(t, at, comps, e);
    }
  }

  /** No way goes over the literal edge. */
  ghost predicate NoLiteral<M>(t: Trie<M>, at: Path, comps: seq<string>)
    requires comps != []
  {
    at + [comps[0]] in t ==> forall e: seq<Step> :: !Hit(t, at + [comps[0]], comps[1..], e)
  }

  ghost predicate NoStar<M>(t: Trie<M>, at: Path, comps: seq<string>)
    requires comps != []
  {
    at + ["*"] in t ==> forall e: seq<Step> :: !Hit(t, at + ["*"], comps[1..], e)
  }

  lemma LeastStar<M>(t: Trie<M>, at: Path, comps: seq<string>, d2: seq<Step>)
    requires at in t && comps != [] && comps[0] != "" && at + ["*"] in t && NoLiteral(t, at, comps)
    requires Least(t, at + ["*"], comps[1..], d2)
    ensures Least(t, at, comps, [ByStar] + d2)
    ensures Walk(t, at, comps, [ByStar] + d2) == Walk(t, at + ["*"], comps[1..], d2)
  {
    var d := [ByStar] + d2;
    assert d[1..] == d2;
    forall e: seq<Step> | Hit(t, at, comps, e) ensures AtMost(d, e) {
      FirstStep(t, at, comps, e);
    }
  }

  /** The `**` edge, when the others lead nowhere. */
  lemma {:induction false} FindLeastDeep<M>(t: Trie<M>, at: Path, comps: seq<string>) returns (d: seq<Step>)
    requires at in t && comps != [] && comps[0] != "" && NoLiteral(t, at, comps) && NoStar(t, at, comps)
    requires at + [comps[0]] in t ==> Find(t, at + [comps[0]], comps[1..]).None?
    requires at + ["*"] in t ==> Find(t, at + ["*"], comps[1..]).None?
    ensures var r := Find(t, at, comps);
      if r.Some? then Walk(t, at, comps, d) == r && Least(t, at, comps, d)
      else forall e: seq<Step> :: !Hit(t, at, comps, e)
    decreases |comps|, Below(t, at), 0, 0
  {
    d := [];
    var deep := at + ["**"];
    if deep in t {
      BelowShrinks(t, at, "**");
      var j, d1 := FindDeepLeast(t, deep, comps, 0);
      if FindDeep(t, deep, comps, 0).Some? {
        d := [ByDeep(j)] + d1;
        LeastDeep(t, at, comps, j, d1);
      } else {
        d := [ByEnd];
        LeastEnd(t, at, comps);
      }
    } else {
      OnlyDeep(t, at, comps);
    }
  }

  /** With the first two edges leading nowhere, a way goes over the third. */
  lemma OnlyDeep<M>(t: Trie<M>, at: Path, comps: seq<string>)
    requires at in t && comps != [] && comps[0] != "" && NoLiteral(t, at, comps) && NoStar(t, at, comps)
    ensures forall e: seq<Step> | Hit(t, at, comps, e) :: e != [] && (e[0].ByDeep? || e[0].ByEnd?) && at + ["**"] in t
  {
    forall e: seq<Step> | Hit(t, at, comps, e) ensures e != [] && (e[0].ByDeep? || e[0].ByEnd?) && at + ["**"] in t {
      FirstStep(t, at, comps, e);
    }
  }

  lemma LeastDeep<M>(t: Trie<M>, at: Path, comps: seq<string>, j: nat, d1: seq<Step>)
    requires at in t && comps != [] && comps[0] != "" && NoLiteral(t, at, comps) && NoStar(t, at, comps)
    requires at + ["**"] in t && LeastFrom(t, at + ["**"], comps, 0, j, d1)
    ensures Least(t, at, comps, [ByDeep(j)] + d1)
    ensures Walk(t, at, comps, [ByDeep(j)] + d1) == WalkOn(t, at + ["**"], comps, j, d1)
  {
    var d := [ByDeep(j)] + d1;
    assert d[1..] == d1;
    OnlyDeep(t, at, comps);
    forall e: seq<Step> | Hit(t, at, comps, e) ensures AtMost(d, e) {
      FirstStep(t, at, comps, e);
    }
  }

  lemma LeastEnd<M>(t: Trie<M>, at: Path, comps: seq<string>)
    requires at in t && comps != [] && comps[0] != "" && NoLiteral(t, at, comps) && NoStar(t, at, comps)
    requires at + ["**"] in t && NoneFrom(t, at + ["**"], comps, 0)
    ensures Walk(t, at, comps, [ByEnd]) == Some(at + ["**"])
    ensures t[at + ["**"]] != [] ==> Least(t, at, comps, [ByEnd])
    ensures t[at + ["**"]] == [] ==> forall e: seq<Step> :: !Hit(t, at, comps, e)
  {
    OnlyDeep(t, at, comps);
    forall e: seq<Step> | Hit(t, at, comps, e) ensures e == [ByEnd] {
      FirstStep(t, at, comps, e);
    }
  }

  lemma {:induction false} FindDeepLeast<M>(t: Trie<M>, at: Path, comps: seq<string>, i: nat)
      returns (j: nat, d: seq<Step>)
    requires at in t && i <= |comps|
    ensures var r := FindDeep(t, at, comps, i);
      if r.Some? then LeastFrom(t, at, comps, i, j, d) && WalkOn(t, at, comps, j, d) == r
      else NoneFrom(t, at, comps, i)
    decreases |comps|, Below(t, at), 2, |comps| - i
  {
    j, d := 0, [];
    if i < |comps| {
      var rest := if at + [comps[i]] in t then comps[i..] else comps[i + 1..];
      if at + [comps[i]] !in t && at + ["*"] !in t {
        j, d := FindDeepLeast(t, at, comps, i + 1);
        NoneHere(t, at, comps, i, j, d);
      } else {
        d := FindLeast(t, at, rest);
        if Find(t, at, rest).Some? {
          j := i;
          LeastHere(t, at, comps, i, rest, d);
        } else {
          j, d := FindDeepLeast(t, at, comps, i + 1);
          forall e: seq<Step> ensures !Ends(t, WalkOn(t, at, comps, i, e)) {
            assert !Hit(t, at, rest, e);
          }
          NoneHere(t, at, comps, i, j, d);
        }
      }
    }
  }

  lemma LeastHere<M>(t: Trie<M>, at: Path, comps: seq<string>, i: nat, rest: seq<string>, d: seq<Step>)
    requires at in t && i < |comps| && Least(t, at, rest, d)
    requires forall e: seq<Step> :: WalkOn(t, at, comps, i, e) == Walk(t, at, rest, e)
    ensures LeastFrom(t, at, comps, i, i, d)
  {
    forall k: nat, e: seq<Step> | i <= k < |comps| && Ends(t, WalkOn(t, at, comps, k, e))
      ensures i < k || (i == k && AtMost(d, e))
    {
      if k == i {
        assert Hit(t, at, rest, e);
      }
    }
  }

  lemma NoneHere<M>(t: Trie<M>, at: Path, comps: seq<string>, i: nat, j: nat, d: seq<Step>)
    requires at in t && i < |comps| && forall e: seq<Step> :: !Ends(t, WalkOn(t, at, comps, i, e))
    ensures LeastFrom(t, at, comps, i + 1, j, d) ==> LeastFrom(t, at, comps, i, j, d)
    ensures NoneFrom(t, at, comps, i + 1) ==> NoneFrom(t, at, comps, i)
  {}

  // ----- what the order says about patterns -----

  lemma {:induction false} Antisymmetric(d: seq<Step>, e: seq<Step>)
    requires AtMost(d, e) && AtMost(e, d)
    ensures d == e
    decreases |d|
  {
    if d != [] {
      Antisymmetric(d[1..], e[1..]);
      assert d == [d[0]] + d[1..] && e == [e[0]] + e[1..];
    }
  }

  /** The search, exactly: it returns where the least way to a stored pattern ends, and fails iff there is no way. */
  lemma FindIsLeast<M>(t: Trie<M>, comps: seq<string>)
    requires [] in t
    ensures Find(t, [], comps).Some? <==> exists d: seq<Step> :: Hit(t, [], comps, d)
    ensures forall d: seq<Step> | Least(t, [], comps, d) :: Find(t, [], comps) == Walk(t, [], comps, d)
  {
    var d0 := FindLeast(t, [], comps);
    forall d: seq<Step> | Least(t, [], comps, d) ensures Find(t, [], comps) == Walk(t, [], comps, d) {
      Antisymmetric(d, d0);
    }
  }

  /** If the least way goes over `**`, no way to a stored pattern goes on from an earlier position. */
  lemma EarliestPosition<M>(t: Trie<M>, at: Path, comps: seq<string>, d: seq<Step>, e: seq<Step>)
    requires at in t && Least(t, at, comps, d) && Hit(t, at, comps, e)
    requires d != [] && d[0].ByDeep? && e != [] && e[0].ByDeep?
    ensures d[0].i <= e[0].i
  {}

  /** A reached pattern is the end of a way. */
  lemma {:induction false} ReachesWalk<M>(t: Trie<M>, at: Path, pattern: Path, comps: seq<string>)
      returns (d: seq<Step>)
    requires IsTrie(t) && at + pattern in t && Reaches(t, at, pattern, comps)
    ensures at in t && Walk(t, at, comps, d) == Some(at + pattern)
    decreases |pattern|
  {
    PrefixIn(t, at, at + pattern);
    if pattern == [] {
      d := [];
      assert at + [] == at;
    } else {
      var next := at + [pattern[0]];
      assert next + pattern[1..] == at + pattern;
      PrefixIn(t, next, at + pattern);
      if (pattern[0] == comps[0] || pattern[0] == "*") && Reaches(t, next, pattern[1..], comps[1..]) {
        var e := ReachesWalk(t, next, pattern[1..], comps[1..]);
        d := [if pattern[0] == comps[0] then ByLiteral else ByStar] + e;
        assert d[1..] == e;
      } else if |pattern| == 1 {
        d := [ByEnd];
        assert pattern == ["**"];
      } else {
        assert pattern[0] == "**" && Reaches(t, at, pattern, comps);
        var i :| 0 <= i < |comps| && Resumes(t, at + ["**"], pattern[1..], comps, i);
        var rest := if next + [comps[i]] in t then comps[i..] else comps[i + 1..];
        var e := ReachesWalk(t, next, pattern[1..], rest);
        d := [ByDeep(i)] + e;
        assert d[1..] == e;
        assert Walk(t, at, comps, d) == WalkOn(t, next, comps, i, e);
      }
    }
  }

  /** The preference between edges: the one that the component labels, then `*`, then `**`. */
  function EdgeRank(edge: string, component: string): nat {
    if edge == component then 0 else if edge == "*" then 1 else if edge == "**" then 2 else 3
  }

  /**
   * At their first difference `r` takes the preferred edge, unless they part below a `**` that they share, or at a
   * component that is itself `**`.
   */
  predicate Outranks(r: Path, q: Path, comps: seq<string>)
    decreases |r|
  {
    || r == q
    || (&& r != [] && q != [] && comps != []
        && if r[0] != q[0] then comps[0] == "**" || EdgeRank(r[0], comps[0]) < EdgeRank(q[0], comps[0])
           else r[0] == "**" || Outranks(r[1..], q[1..], comps[1..]))
  }

  /** The edge of a first step. */
  function Edge(s: Step, component: string): string {
    match s
    case ByLiteral => component
    case ByStar => "*"
    case ByDeep(_) => "**"
    case ByEnd => "**"
  }

  lemma {:induction false} WalkBelow<M>(t: Trie<M>, at: Path, comps: seq<string>, d: seq<Step>)
    requires at in t && Walk(t, at, comps, d).Some?
    ensures at <= Walk(t, at, comps, d).value
    ensures d == [] ==> comps == [] && Walk(t, at, comps, d).value == at
    ensures d != [] ==> comps != [] && at + [Edge(d[0], comps[0])] <= Walk(t, at, comps, d).value
    decreases |d|
  {
    if d != [] {
      var next := at + [Edge(d[0], comps[0])];
      match d[0] {
        case ByLiteral => WalkBelow(t, next, comps[1..], d[1..]);
        case ByStar => WalkBelow(t, next, comps[1..], d[1..]);
        case ByDeep(i) =>
          WalkBelow(t, next, if next + [comps[i]] in t then comps[i..] else comps[i + 1..], d[1..]);
        case ByEnd =>
      }
    }
  }

  /** The least way outranks every other. */
  lemma {:induction false} LeastOutranks<M>(t: Trie<M>, at: Path, comps: seq<string>, d: seq<Step>, e: seq<Step>)
    requires at in t && Least(t, at, comps, d) && Hit(t, at, comps, e)
    ensures var r, q := Walk(t, at, comps, d).value, Walk(t, at, comps, e).value;
      at <= r && at <= q && Outranks(r[|at|..], q[|at|..], comps)
    decreases |d|
  {
    WalkBelow(t, at, comps, d);
    WalkBelow(t, at, comps, e);
    var r, q := Walk(t, at, comps, d).value, Walk(t, at, comps, e).value;
    if d != [] {
      assert AtMost(d, e);
      var f, g := Edge(d[0], comps[0]), Edge(e[0], comps[0]);
      assert r[|at|..][0] == f && q[|at|..][0] == g;
      if f == g && f != "**" {
        var next := at + [f];
        LeastTail(t, at, comps, d, f);
        SameEdge(t, at, comps, e, f);
        LeastOutranks(t, next, comps[1..], d[1..], e[1..]);
        assert r[|at|..][1..] == r[|next|..] && q[|at|..][1..] == q[|next|..];
      }
    }
  }

  /** Behind an edge other than `**` the way goes on from the next node with the next component. */
  lemma SameEdge<M>(t: Trie<M>, at: Path, comps: seq<string>, e: seq<Step>, f: string)
    requires at in t && comps != [] && Hit(t, at, comps, e) && e != [] && Edge(e[0], comps[0]) == f && f != "**"
    ensures at + [f] in t && Walk(t, at, comps, e) == Walk(t, at + [f], comps[1..], e[1..])
  {
    FirstStep(t, at, comps, e);
  }

  lemma LeastTail<M>(t: Trie<M>, at: Path, comps: seq<string>, d: seq<Step>, f: string)
    requires at in t && comps != [] && Least(t, at, comps, d) && d != [] && Edge(d[0], comps[0]) == f && f != "**"
    ensures at + [f] in t && Least(t, at + [f], comps[1..], d[1..])
  {
    SameEdge(t, at, comps, d, f);
    forall e: seq<Step> | Hit(t, at + [f], comps[1..], e) ensures AtMost(d[1..], e) {
      var e' := [d[0]] + e;
      assert e'[1..] == e;
      assert Hit(t, at, comps, e');
      assert AtMost(d, e');
    }
  }

  /**
   * Priority in any trie: the result is the pattern itself or, where it first leaves any other reached pattern, takes
   * the literal before `*` and `*` before `**`, as long as no `**` stands in what they share and
   * no component is `**`.
   */
  lemma DeepPriority<M>(t: Trie<M>, comps: seq<string>, q: Path)
    requires IsTrie(t) && Hits(t, [], comps, q)
    ensures Find(t, [], comps).Some? && Outranks(Find(t, [], comps).value, q, comps)
  {
    assert q[0..] == q && [] + q == q;
    var e := ReachesWalk(t, [], q, comps);
    var d := FindLeast(t, [], comps);
    assert Hit(t, [], comps, e);
    LeastOutranks(t, [], comps, d, e);
    var r := Find(t, [], comps).value;
    assert r[0..] == r;
  }
}
