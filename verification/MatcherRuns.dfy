/** The matcher after any run of `AddPattern` calls. */
module MatcherRuns {
  import opened Wrappers
  import opened Search
  import opened Matcher

  datatype Addition<M> = Addition(comps: seq<string>, meta: M)

  ghost function Build<M>(adds: seq<Addition<M>>): (t: Trie<M>)
    ensures [] in t
  {
    if adds == [] then map[[] := []]
    else
      var a := adds[|adds| - 1];
      var t := Build(adds[..|adds| - 1]);
      GrowHas(t, a.comps, FirstEmpty(a.comps));
      Insert(t, a.comps, a.meta)
  }

  /** The metas added under the pattern `q`, in order; a call with an empty component adds none. */
  function Metas<M>(adds: seq<Addition<M>>, q: Path): seq<M> {
    if adds == [] then [] else
    var a := adds[|adds| - 1];
    Metas(adds[..|adds| - 1], q) + if a.comps == q && NonEmptyComponents(q) then [a.meta] else []
  }

  ghost predicate Holds<M>(t: Trie<M>, q: Path, metas: seq<M>) {
    if q in t then t[q] == metas else metas == []
  }

  lemma {:induction false} GrowKeeps<M>(t: Trie<M>, comps: seq<string>, n: nat)
    requires IsTrie(t) && n <= |comps| && NonEmptyComponents(comps[..n])
    ensures IsTrie(Grow(t, comps, n))
    ensures forall q, metas :: Holds(t, q, metas) <==> Holds(Grow(t, comps, n), q, metas)
  {
    if n > 0 {
      GrowKeeps(t, comps, n - 1);
      GrowHas(t, comps, n - 1);
      assert comps[..n][..n - 1] == comps[..n - 1];
    }
  }

  lemma InsertHolds<M>(t: Trie<M>, comps: seq<string>, meta: M, q: Path, metas: seq<M>)
    requires IsTrie(t) && Holds(t, q, metas)
    ensures IsTrie(Insert(t, comps, meta))
    ensures Holds(Insert(t, comps, meta), q, metas + if comps == q && NonEmptyComponents(q) then [meta] else [])
  {
    var n := FirstEmpty(comps);
    GrowKeeps(t, comps, n);
    assert metas + [] == metas;
    if n == |comps| {
      assert comps[..n] == comps;
      GrowHas(t, comps, n);
    }
  }

  /** After any run the trie holds, under each pattern, exactly the metas added under it. */
  lemma {:induction false} BuildHolds<M>(adds: seq<Addition<M>>, q: Path)
    ensures IsTrie(Build(adds)) && Holds(Build(adds), q, Metas(adds, q))
  {
    if adds != [] {
      var a := adds[|adds| - 1];
      BuildHolds(adds[..|adds| - 1], q);
      InsertHolds(Build(adds[..|adds| - 1]), a.comps, a.meta, q, Metas(adds[..|adds| - 1], q));
    }
  }

  /** The additions that leave a node at `p`: those that go through it before an empty component, if any, stops them. */
  ghost predicate Reached<M>(adds: seq<Addition<M>>, p: Path) {
    exists i :: 0 <= i < |adds| && p <= adds[i].comps && NonEmptyComponents(p)
  }

  lemma {:induction false} GrowNodes<M>(t: Trie<M>, comps: seq<string>, n: nat, p: Path)
    requires [] in t && n <= |comps|
    ensures p in Grow(t, comps, n) <==> p in t || p <= comps[..n]
  {
    if n > 0 {
      GrowNodes(t, comps, n - 1, p);
      assert comps[..n] == comps[..n - 1] + [comps[n - 1]];
      assert p <= comps[..n] && p != comps[..n] ==> p == comps[..n - 1][..|p|];
    }
  }

  lemma StopsAt(comps: seq<string>, p: Path)
    ensures p <= comps[..FirstEmpty(comps)] <==> p <= comps && NonEmptyComponents(p)
  {
    var n := FirstEmpty(comps);
    if p <= comps && NonEmptyComponents(p) {
      assert forall i | 0 <= i < |p| :: comps[i] == p[i] != "";
      assert |p| <= n;
      assert comps[..n][..|p|] == p;
    }
    if p <= comps[..n] {
      assert forall i | 0 <= i < |p| :: p[i] == comps[..n][i];
    }
  }

  /** After any run the trie has exactly the nodes that the additions went through, failed ones included. */
  lemma {:induction false} BuildNodes<M>(adds: seq<Addition<M>>, p: Path)
    ensures p in Build(adds) <==> p == [] || Reached(adds, p)
  {
    if adds != [] {
      var n := |adds| - 1;
      var a := adds[n];
      BuildNodes(adds[..n], p);
      GrowNodes(Build(adds[..n]), a.comps, FirstEmpty(a.comps), p);
      GrowHas(Build(adds[..n]), a.comps, FirstEmpty(a.comps));
      StopsAt(a.comps, p);
      if Reached(adds, p) {
        var i :| 0 <= i < |adds| && p <= adds[i].comps && NonEmptyComponents(p);
        assert i < n ==> adds[..n][i] == adds[i];
      }
      if Reached(adds[..n], p) {
        var i :| 0 <= i < n && p <= adds[..n][i].comps && NonEmptyComponents(p);
        assert adds[i] == adds[..n][i];
      }
      assert p <= a.comps && NonEmptyComponents(p) ==> Reached(adds, p);
    }
  }

  /** A match returns the metas added, in order, under one pattern that matches the request. */
  lemma MatchSound<M>(adds: seq<Addition<M>>, comps: seq<string>)
    ensures var r := Find(Build(adds), [], comps);
            r.Some? ==>
              && Glob(r.value, comps)
              && r.value in Build(adds) && Build(adds)[r.value] == Metas(adds, r.value) != []
  {
    Sound(Build(adds), comps);
    var r := Find(Build(adds), [], comps);
    if r.Some? {
      BuildHolds(adds, r.value);
    }
  }

  /** A request that matches a deep-safe pattern added in the run is matched. */
  lemma MatchComplete<M>(adds: seq<Addition<M>>, comps: seq<string>, q: Path)
    requires Metas(adds, q) != [] && IsDeepSafe(q) && NonEmptyComponents(comps) && GlobNonEmpty(q, comps)
    ensures Find(Build(adds), [], comps).Some?
  {
    BuildHolds(adds, q);
    Complete(Build(adds), comps, q);
  }
}
