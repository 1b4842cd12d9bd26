/**
 * The wildcard path search on the trie as a value: a map from component paths to the metas
 * stored there. A stored pattern is a path with a non-empty meta list.
 */
module Search {
  import opened Wrappers

  type Path = seq<string>
  type Trie<M> = map<Path, seq<M>>

  /** Paths come with all their prefixes and have no empty component. */
  ghost predicate IsTrie<M>(t: Trie<M>) {
    && [] in t
    && (forall p | p in t :: p != [] ==> p[..|p| - 1] in t)
    && (forall p | p in t :: forall i | 0 <= i < |p| :: p[i] != "")
  }

  /** The nodes strictly below `at`: the part of the trie left to descend into. */
  ghost function Below<M>(t: Trie<M>, at: Path): set<Path> {
    set p | p in t && at < p
  }

  lemma BelowShrinks<M>(t: Trie<M>, at: Path, c: string)
    requires at + [c] in t
    ensures Below(t, at + [c]) < Below(t, at)
  {
    assert at + [c] in Below(t, at) && at + [c] !in Below(t, at + [c]);
  }

  /** `matchInternal`: the pattern found from the node at `at`, if any. */
  ghost function Find<M>(t: Trie<M>, at: Path, comps: seq<string>): Option<Path>
    requires at in t
    decreases |comps|, Below(t, at), 0, 0
  {
    if comps == [] then
      if t[at] != [] then Some(at) else None
    else if comps[0] == "" then
      None
    else
      var literal := if at + [comps[0]] in t then Find(t, at + [comps[0]], comps[1..]) else None;
      if literal.Some? then literal else
      var star := if at + ["*"] in t then Find(t, at + ["*"], comps[1..]) else None;
      if star.Some? then star else
      if at + ["**"] !in t then None else
      BelowShrinks(t, at, "**");
      var deep := FindDeep(t, at + ["**"], comps, 0);
      if deep.Some? then deep
      else if t[at + ["**"]] != [] then Some(at + ["**"])
      else None
  }

  /** The loop of `matchInternal` below a `**` node, from position `i` on. */
  ghost function FindDeep<M>(t: Trie<M>, at: Path, comps: seq<string>, i: nat): Option<Path>
    requires at in t && i <= |comps|
    decreases |comps|, Below(t, at), 1, |comps| - i
  {
    if i == |comps| then None else
    var here :=
      if at + [comps[i]] in t then Find(t, at, comps[i..])
      else if at + ["*"] in t then Find(t, at, comps[i + 1..])
      else None;
    if here.Some? then here else FindDeep(t, at, comps, i + 1)
  }

  // ----- what a pattern means -----

  /** Declarative matching: `*` is one component, `**` any run of components. */
  ghost predicate Glob(pattern: Path, comps: seq<string>)
    decreases |pattern|
  {
    if pattern == [] then comps == []
    else if pattern[0] == "**" then exists k | 0 <= k <= |comps| :: Glob(pattern[1..], comps[k..])
    else comps != [] && (pattern[0] == "*" || pattern[0] == comps[0]) && Glob(pattern[1..], comps[1..])
  }

  /**
   * The matches the search can reach. Below a `**` the search resumes at a component that labels
   * an edge, or after a component that does not when there is a `*` edge; a final `**` takes all.
   */
  ghost predicate Reaches<M>(t: Trie<M>, at: Path, pattern: Path, comps: seq<string>)
    decreases |pattern|, 0
  {
    if pattern == [] || comps == [] then pattern == [] && comps == []
    else
      && comps[0] != ""
      && (|| ((pattern[0] == comps[0] || pattern[0] == "*")
              && Reaches(t, at + [pattern[0]], pattern[1..], comps[1..]))
          || (pattern[0] == "**"
              && (|pattern| == 1 || exists i | 0 <= i < |comps| :: Resumes(t, at + ["**"], pattern[1..], comps, i))))
  }

  ghost predicate Resumes<M>(t: Trie<M>, at: Path, pattern: Path, comps: seq<string>, i: nat)
    requires i < |comps|
    decreases |pattern|, 1
  {
    if at + [comps[i]] in t then Reaches(t, at, pattern, comps[i..])
    else at + ["*"] in t && Reaches(t, at, pattern, comps[i + 1..])
  }

  /** `q` is a stored pattern at or below `at` whose remainder is reached by `comps`. */
  ghost predicate Hits<M>(t: Trie<M>, at: Path, comps: seq<string>, q: Path) {
    q in t && t[q] != [] && at <= q && Reaches(t, at, q[|at|..], comps)
  }

  // ----- the search finds exactly the reachable patterns -----

  lemma Descend<M>(t: Trie<M>, at: Path, comps: seq<string>, q: Path, c: string)
    requires comps != [] && comps[0] != "" && (c == comps[0] || c == "*")
    requires Hits(t, at + [c], comps[1..], q)
    ensures Hits(t, at, comps, q)
  {
    var rest := q[|at|..];
    assert rest[0] == c && rest[1..] == q[|at| + 1..];
  }

  lemma {:induction false} FindSound<M>(t: Trie<M>, at: Path, comps: seq<string>)
    requires at in t
    ensures var r := Find(t, at, comps); r.Some? ==> Hits(t, at, comps, r.value)
    decreases |comps|, Below(t, at), 0, 0
  {
    var r := Find(t, at, comps);
    if r.None? {
    } else if comps == [] {
      assert at[|at|..] == [];
    } else {
      var c := comps[0];
      if at + [c] in t {
        FindSound(t, at + [c], comps[1..]);
        if Find(t, at + [c], comps[1..]).Some? {
          Descend(t, at, comps, r.value, c);
          return;
        }
      }
      if at + ["*"] in t {
        FindSound(t, at + ["*"], comps[1..]);
        if Find(t, at + ["*"], comps[1..]).Some? {
          Descend(t, at, comps, r.value, "*");
          return;
        }
      }
      var node := at + ["**"];
      BelowShrinks(t, at, "**");
      FindDeepSound(t, node, comps, 0);
      var rest := r.value[|at|..];
      assert node <= r.value;
      assert rest[0] == "**" && rest[1..] == r.value[|node|..];
    }
  }

  lemma {:induction false} FindDeepSound<M>(t: Trie<M>, at: Path, comps: seq<string>, i: nat)
    requires at in t && i <= |comps|
    ensures var r := FindDeep(t, at, comps, i);
            r.Some? ==>
              && r.value in t && t[r.value] != [] && at <= r.value
              && exists j | i <= j < |comps| :: Resumes(t, at, r.value[|at|..], comps, j)
    decreases |comps|, Below(t, at), 1, |comps| - i
  {
    if i < |comps| {
      if at + [comps[i]] in t {
        FindSound(t, at, comps[i..]);
      } else if at + ["*"] in t {
        FindSound(t, at, comps[i + 1..]);
      }
      FindDeepSound(t, at, comps, i + 1);
      var r := FindDeep(t, at, comps, i);
      if r.Some? && r != FindDeep(t, at, comps, i + 1) {
        assert Resumes(t, at, r.value[|at|..], comps, i);
      }
    }
  }

  lemma {:induction false} PrefixIn<M>(t: Trie<M>, p: Path, q: Path)
    requires IsTrie(t) && q in t && p <= q
    ensures p in t
    decreases |q|
  {
    if p != q {
      var q' := q[..|q| - 1];
      assert q' in t;
      assert p <= q' by { assert p == q[..|p|]; assert q'[..|p|] == q[..|p|]; }
      PrefixIn(t, p, q');
    }
  }

  lemma {:induction false} FindComplete<M>(t: Trie<M>, at: Path, comps: seq<string>, q: Path)
    requires IsTrie(t) && at in t && Hits(t, at, comps, q)
    ensures Find(t, at, comps).Some?
    decreases |comps|, Below(t, at), 1, 0
  {
    if q == at {
      assert q[|at|..] == [];
    } else {
      var c := q[|at|];
      var plain, i := HitsNext(t, at, comps, q);
      if plain {
        FindCompleteStep(t, at, comps, q, c);
      } else {
        FindCompleteDeep(t, at, comps, q, i);
      }
    }
  }

  /** How a stored pattern below a node is reached: over a literal or `*` edge, or over a `**` edge. */
  lemma HitsNext<M>(t: Trie<M>, at: Path, comps: seq<string>, q: Path) returns (plain: bool, i: nat)
    requires IsTrie(t) && Hits(t, at, comps, q) && q != at
    ensures |at| < |q| && comps != [] && comps[0] != "" && at + [q[|at|]] in t && at + [q[|at|]] <= q
    ensures plain ==> (q[|at|] == comps[0] || q[|at|] == "*") && Hits(t, at + [q[|at|]], comps[1..], q)
    ensures !plain ==> q[|at|] == "**"
    ensures !plain && |q| > |at| + 1 ==> i < |comps| && Resumes(t, at + ["**"], q[|at| + 1..], comps, i)
  {
    var rest, next := q[|at|..], at + [q[|at|]];
    assert next == q[..|at| + 1] && rest[1..] == q[|next|..] && rest[0] == q[|at|];
    PrefixIn(t, next, q);
    plain, i := (rest[0] == comps[0] || rest[0] == "*") && Reaches(t, next, rest[1..], comps[1..]), 0;
    assert Reaches(t, at, rest, comps);
    if !plain && |rest| > 1 {
      i :| 0 <= i < |comps| && Resumes(t, at + ["**"], rest[1..], comps, i);
    }
  }

  /** The step over a literal or `*` edge. */
  lemma {:induction false} FindCompleteStep<M>(t: Trie<M>, at: Path, comps: seq<string>, q: Path, c: string)
    requires IsTrie(t) && at in t && at + [c] in t && comps != [] && comps[0] != ""
    requires (c == comps[0] || c == "*") && Hits(t, at + [c], comps[1..], q)
    ensures Find(t, at, comps).Some?
    decreases |comps|, Below(t, at), 0, 0
  {
    FindComplete(t, at + [c], comps[1..], q);
  }

  /** The step over a `**` edge. */
  lemma {:induction false} FindCompleteDeep<M>(t: Trie<M>, at: Path, comps: seq<string>, q: Path, i: nat)
    requires IsTrie(t) && at in t && Hits(t, at, comps, q) && at + ["**"] in t && at + ["**"] <= q && comps != []
    requires |q| > |at| + 1 ==> i < |comps| && Resumes(t, at + ["**"], q[|at| + 1..], comps, i)
    ensures Find(t, at, comps).Some?
    decreases |comps|, Below(t, at), 0, 0
  {
    var next := at + ["**"];
    BelowShrinks(t, at, "**");
    if |q| == |next| {
      assert q == next;
    } else {
      FindDeepComplete(t, next, comps, 0, q, i);
    }
  }

  lemma {:induction false} FindDeepComplete<M>(t: Trie<M>, at: Path, comps: seq<string>, i: nat, q: Path, j: nat)
    requires IsTrie(t) && at in t && i <= j < |comps|
    requires q in t && t[q] != [] && at <= q && Resumes(t, at, q[|at|..], comps, j)
    ensures FindDeep(t, at, comps, i).Some?
    decreases |comps|, Below(t, at), 1, |comps| - i
  {
    if i < j {
      FindDeepComplete(t, at, comps, i + 1, q, j);
    } else if at + [comps[i]] in t {
      FindComplete(t, at, comps[i..], q);
    } else {
      FindComplete(t, at, comps[i + 1..], q);
    }
  }

  /** The search succeeds exactly when some stored pattern is reachable, and then returns such a pattern. */
  lemma FindExact<M>(t: Trie<M>, comps: seq<string>)
    requires IsTrie(t)
    ensures Find(t, [], comps).Some? <==> exists q :: Hits(t, [], comps, q)
    ensures Find(t, [], comps).Some? ==> Hits(t, [], comps, Find(t, [], comps).value)
  {
    FindSound(t, [], comps);
    if q :| Hits(t, [], comps, q) {
      FindComplete(t, [], comps, q);
    }
  }

  // ----- reachable matches against declarative ones -----

  lemma {:induction false} ReachesGlob<M>(t: Trie<M>, at: Path, pattern: Path, comps: seq<string>)
    requires Reaches(t, at, pattern, comps)
    ensures Glob(pattern, comps)
    decreases |pattern|
  {
    if pattern != [] {
      if (pattern[0] == comps[0] || pattern[0] == "*") && Reaches(t, at + [pattern[0]], pattern[1..], comps[1..]) {
        ReachesGlob(t, at + [pattern[0]], pattern[1..], comps[1..]);
      } else if |pattern| == 1 {
        assert comps[|comps|..] == [] && Glob(pattern[1..], comps[|comps|..]);
      } else {
        var i :| 0 <= i < |comps| && Resumes(t, at + ["**"], pattern[1..], comps, i);
        var k := if at + ["**"] + [comps[i]] in t then i else i + 1;
        ReachesGlob(t, at + ["**"], pattern[1..], comps[k..]);
      }
    }
  }

  /** Soundness: what the search returns is a stored pattern that matches the request. */
  lemma Sound<M>(t: Trie<M>, comps: seq<string>)
    requires [] in t
    ensures var r := Find(t, [], comps); r.Some? ==> r.value in t && t[r.value] != [] && Glob(r.value, comps)
  {
    FindSound(t, [], comps);
    var r := Find(t, [], comps);
    if r.Some? {
      assert r.value[0..] == r.value;
      ReachesGlob(t, [], r.value, comps);
    }
  }

  predicate IsLiteral(c: string) {
    c != "*" && c != "**"
  }

  /** Every `**` is last or directly followed by a literal. */
  predicate IsDeepSafe(pattern: Path) {
    forall i | 0 <= i < |pattern| - 1 :: pattern[i] == "**" ==> IsLiteral(pattern[i + 1])
  }

  predicate EndsDeep(pattern: Path) {
    pattern != [] && pattern[|pattern| - 1] == "**"
  }

  predicate NonEmptyComponents(comps: seq<string>) {
    forall i | 0 <= i < |comps| :: comps[i] != ""
  }

  /** A match in which a final `**` takes at least one component. */
  ghost predicate GlobNonEmpty(pattern: Path, comps: seq<string>) {
    if EndsDeep(pattern) then Glob(pattern[..|pattern| - 1] + ["*", "**"], comps) else Glob(pattern, comps)
  }

  lemma GlobTailStep(pattern: Path, comps: seq<string>)
    requires |pattern| > 1 && GlobNonEmpty(pattern, comps)
    ensures if pattern[0] == "**" then exists k | 0 <= k <= |comps| :: GlobNonEmpty(pattern[1..], comps[k..])
            else comps != [] && (pattern[0] == "*" || pattern[0] == comps[0]) && GlobNonEmpty(pattern[1..], comps[1..])
  {
    if EndsDeep(pattern) {
      var n := |pattern| - 1;
      var full, tail := pattern[..n] + ["*", "**"], pattern[1..][..n - 1] + ["*", "**"];
      assert full[1..] == tail;
      assert EndsDeep(pattern[1..]);
      if pattern[0] == "**" {
        var k :| 0 <= k <= |comps| && Glob(full[1..], comps[k..]);
        assert GlobNonEmpty(pattern[1..], comps[k..]);
      }
    } else if pattern[0] == "**" {
      var k :| 0 <= k <= |comps| && Glob(pattern[1..], comps[k..]);
      assert GlobNonEmpty(pattern[1..], comps[k..]);
    }
  }

  lemma {:induction false} DeepSafeReaches<M>(t: Trie<M>, at: Path, pattern: Path, comps: seq<string>)
    requires IsTrie(t) && at + pattern in t
    requires IsDeepSafe(pattern) && NonEmptyComponents(comps) && GlobNonEmpty(pattern, comps)
    ensures Reaches(t, at, pattern, comps)
    decreases |pattern|
  {
    if pattern == [] {
    } else if |pattern| == 1 {
      LastStep(t, at, pattern, comps);
    } else {
      GlobTailStep(pattern, comps);
      var next := at + [pattern[0]];
      assert next + pattern[1..] == at + pattern;
      if pattern[0] == "**" {
        var k :| 0 <= k <= |comps| && GlobNonEmpty(pattern[1..], comps[k..]);
        DeepSafeReaches(t, next, pattern[1..], comps[k..]);
        ResumesAtLiteral(t, at, pattern, comps, k);
      } else {
        DeepSafeReaches(t, next, pattern[1..], comps[1..]);
      }
    }
  }

  lemma ResumesAtLiteral<M>(t: Trie<M>, at: Path, pattern: Path, comps: seq<string>, k: nat)
    requires IsTrie(t) && at + pattern in t && |pattern| > 1 && pattern[0] == "**" && IsLiteral(pattern[1])
    requires k <= |comps| && comps != [] && comps[0] != "" && Reaches(t, at + ["**"], pattern[1..], comps[k..])
    ensures Reaches(t, at, pattern, comps)
  {
    var next := at + ["**"];
    assert comps[k..] != [] && pattern[1..][0] == pattern[1] == comps[k..][0] == comps[k];
    assert next + [comps[k]] == (at + pattern)[..|at| + 2];
    PrefixIn(t, next + [comps[k]], at + pattern);
    assert Resumes(t, next, pattern[1..], comps, k);
  }

  lemma LastStep<M>(t: Trie<M>, at: Path, pattern: Path, comps: seq<string>)
    requires |pattern| == 1 && NonEmptyComponents(comps) && GlobNonEmpty(pattern, comps)
    ensures Reaches(t, at, pattern, comps)
  {
    if pattern[0] == "**" {
      assert pattern[..0] + ["*", "**"] == ["*", "**"];
      assert comps != [];
    } else {
      assert pattern[1..] == [] && Glob(pattern, comps) && Glob(pattern[1..], comps[1..]);
      assert comps[1..] == [];
      assert Reaches(t, at + [pattern[0]], [], []);
    }
  }

  /**
   * Completeness: a request that matches a stored deep-safe pattern finds one, whatever other
   * patterns share the trie.
   */
  lemma Complete<M>(t: Trie<M>, comps: seq<string>, q: Path)
    requires IsTrie(t) && q in t && t[q] != []
    requires IsDeepSafe(q) && NonEmptyComponents(comps) && GlobNonEmpty(q, comps)
    ensures Find(t, [], comps).Some?
  {
    assert [] + q == q && q[0..] == q;
    DeepSafeReaches(t, [], q, comps);
    FindComplete(t, [], comps, q);
  }

  lemma NotReached<M>(t: Trie<M>, pattern: Path, comps: seq<string>)
    requires |pattern| > 1 && pattern[0] == "**" && comps != [] && comps[0] != "**"
    requires forall i | 0 <= i < |comps| :: !Resumes(t, ["**"], pattern[1..], comps, i)
    ensures !Reaches(t, [], pattern, comps)
  {
    assert [] + ["**"] == ["**"];
  }

  lemma DeepStarGlob(c: string)
    ensures Glob(["**", "*"], [c]) && Glob(["**", "*"], ["a", c])
  {
    assert ["**", "*"][1..] == ["*"] && Glob(["*"], [c]);
    assert [c][0..] == [c] && ["a", c][1..] == [c];
  }

  /** Without the condition completeness fails: `**` before `*` cannot take an empty run ... */
  lemma DeepBeforeStar<M>(t: Trie<M>)
    requires t.Keys == {[], ["**"], ["**", "*"]} && t[[]] == [] && t[["**"]] == [] && t[["**", "*"]] != []
    ensures Glob(["**", "*"], ["a"]) && Find(t, [], ["a"]) == None
  {
    var p, c := ["**", "*"], ["a"];
    DeepStarGlob("a");
    assert p[1..] == ["*"] && c[1..] == [];
    assert ["**"] + ["a"] == ["**", "a"] && ["**", "a"] !in t.Keys;
    assert !Resumes(t, ["**"], p[1..], c, 0);
    NotReached(t, p, c);
    FindSound(t, [], c);
    assert p[0..] == p;
  }

  /** ... and a literal edge below `**` hides the `*` edge beside it. */
  lemma DeepSiblingHides<M>(t: Trie<M>)
    requires ["**", "a"] in t && ["**", "x"] !in t
    ensures Glob(["**", "*"], ["a", "x"]) && !Hits(t, [], ["a", "x"], ["**", "*"])
  {
    var p, c := ["**", "*"], ["a", "x"];
    DeepStarGlob("x");
    assert p[1..] == ["*"] && c[0..] == c && c[1..] == ["x"] && c[2..] == [];
    assert ["**"] + ["a"] == ["**", "a"] && ["**"] + ["x"] == ["**", "x"];
    assert !Reaches(t, ["**"], ["*"], c) by {
      assert !Reaches(t, ["**"] + ["*"], ["*"][1..], ["x"]);
    }
    assert !Resumes(t, ["**"], p[1..], c, 0) && !Resumes(t, ["**"], p[1..], c, 1);
    NotReached(t, p, c);
    assert p[0..] == p;
  }

  lemma SiblingGlob(c: string)
    requires c != "a"
    ensures !Glob(["**", "a"], ["a", c])
  {
    var p, comps := ["**", "a"], ["a", c];
    assert p[1..] == ["a"] && ["a"][1..] == [];
    assert forall k | 0 <= k <= 2 :: comps[k..] == if k == 0 then comps else if k == 1 then [c] else [];
    assert comps[1..] == [c] && !Glob([], [c]);
    assert !Glob(["a"], comps) && !Glob(["a"], [c]) && !Glob(["a"], []);
  }

  /** Two patterns in one trie: the search fails, although one of them matches. */
  lemma DeepSiblingFails<M>(t: Trie<M>)
    requires IsTrie(t) && t.Keys == {[], ["**"], ["**", "a"], ["**", "*"]}
    requires t[[]] == [] && t[["**"]] == [] && t[["**", "*"]] != []
    ensures Glob(["**", "*"], ["a", "x"]) && Find(t, [], ["a", "x"]) == None
  {
    var c := ["a", "x"];
    DeepSiblingHides(t);
    SiblingGlob("x");
    NotHit(t, ["**", "a"], c);
    assert forall q | q in t.Keys :: !Hits(t, [], c, q);
    FindExact(t, c);
  }

  lemma NotHit<M>(t: Trie<M>, q: Path, comps: seq<string>)
    requires !Glob(q, comps)
    ensures !Hits(t, [], comps, q)
  {
    if Reaches(t, [], q, comps) {
      ReachesGlob(t, [], q, comps);
    }
    assert q[0..] == q;
  }

  // ----- the condition on patterns is exact -----

  /** The trie holds one pattern and nothing else. */
  ghost predicate HoldsOnly<M>(t: Trie<M>, q: Path) {
    && IsTrie(t)
    && (forall p :: p in t <==> p <= q)
    && (forall p | p in t :: t[p] != [] <==> p == q)
  }

  /** The shortest request that matches a pattern, every `**` taking nothing but a final one. */
  function Shortest(pattern: Path): (comps: seq<string>) {
    if pattern == [] then []
    else if pattern[0] == "**" && |pattern| > 1 then Shortest(pattern[1..])
    else [if IsLiteral(pattern[0]) then pattern[0] else "x"] + Shortest(pattern[1..])
  }

  /** What a match with a non-empty final run is a match of. */
  function Widened(pattern: Path): Path {
    if EndsDeep(pattern) then pattern[..|pattern| - 1] + ["*", "**"] else pattern
  }

  lemma WidenedTail(pattern: Path)
    requires |pattern| > 1
    ensures Widened(pattern) == [pattern[0]] + Widened(pattern[1..])
  {}

  lemma {:induction false} ShortestMatches(pattern: Path)
    ensures Glob(Widened(pattern), Shortest(pattern))
  {
    if |pattern| == 1 {
      assert pattern[1..] == [] && Shortest(pattern[1..]) == [];
      if pattern[0] == "**" {
        assert Widened(pattern) == ["*", "**"];
        assert ["*", "**"][1..] == ["**"] && ["**"][1..] == [] && ["x"][1..] == [];
        assert Glob([], [][0..]);
      }
    } else if pattern != [] {
      ShortestMatches(pattern[1..]);
      WidenedTail(pattern);
      var full, rest := Widened(pattern), Shortest(pattern[1..]);
      assert full[1..] == Widened(pattern[1..]);
      if pattern[0] == "**" {
        assert rest[0..] == rest;
      } else {
        assert Shortest(pattern)[1..] == rest;
      }
    }
  }

  predicate AllLiteral(comps: seq<string>) {
    forall i | 0 <= i < |comps| :: comps[i] != "" && IsLiteral(comps[i])
  }

  lemma {:induction false} ShortestLiteral(pattern: Path)
    requires NonEmptyComponents(pattern)
    ensures AllLiteral(Shortest(pattern))
  {
    if pattern != [] {
      ShortestLiteral(pattern[1..]);
    }
  }

  lemma UnsafeTail(pattern: Path)
    requires |pattern| > 1 && (pattern[0] == "**" ==> IsLiteral(pattern[1]))
    ensures IsDeepSafe(pattern) <==> IsDeepSafe(pattern[1..])
  {
    if IsDeepSafe(pattern[1..]) {
      forall i | 0 <= i < |pattern| - 1 && pattern[i] == "**" ensures IsLiteral(pattern[i + 1]) {
        assert i > 0 ==> pattern[1..][i - 1] == "**";
      }
    }
    if IsDeepSafe(pattern) {
      forall i | 0 <= i < |pattern| - 2 && pattern[1..][i] == "**" ensures IsLiteral(pattern[1..][i + 1]) {
        assert pattern[i + 1] == "**";
      }
    }
  }

  lemma ShortestTail(pattern: Path)
    requires pattern != []
    ensures |Shortest(pattern)| == |Shortest(pattern[1..])| + if pattern[0] == "**" && |pattern| > 1 then 0 else 1
  {}

  /** Below a `**` the search goes on at a component that is the next literal, or behind a component. */
  lemma Resumption<M>(t: Trie<M>, q: Path, at: Path, comps: seq<string>) returns (k: nat)
    requires HoldsOnly(t, q) && at <= q && |q| > |at| + 1 && q[|at|] == "**" && AllLiteral(comps)
    requires Reaches(t, at, q[|at|..], comps)
    ensures k <= |comps| && Reaches(t, at + ["**"], q[|at| + 1..], comps[k..])
    ensures k == 0 ==> IsLiteral(q[|at| + 1])
  {
    var pattern, next := q[|at|..], at + ["**"];
    assert pattern[1..] == q[|at| + 1..] && pattern[0] == "**";
    var i :| 0 <= i < |comps| && Resumes(t, next, pattern[1..], comps, i);
    if next + [comps[i]] in t {
      assert q[|at| + 1] == (next + [comps[i]])[|at| + 1] == comps[i];
      k := i;
    } else {
      k := i + 1;
    }
  }

  /** A lower bound for what reaches a pattern. */
  function Bound(pattern: Path): nat {
    |Shortest(pattern)| + if IsDeepSafe(pattern) then 0 else 1
  }

  lemma BoundTail(pattern: Path)
    requires |pattern| > 1
    ensures Bound(pattern) <= Bound(pattern[1..]) + if pattern[0] == "**" && IsLiteral(pattern[1]) then 0 else 1
  {
    ShortestTail(pattern);
    if pattern[0] == "**" ==> IsLiteral(pattern[1]) {
      UnsafeTail(pattern);
    }
  }

  lemma PlainStep<M>(t: Trie<M>, at: Path, pattern: Path, comps: seq<string>)
    requires pattern != [] && pattern[0] != "**" && Reaches(t, at, pattern, comps)
    ensures comps != [] && Reaches(t, at + [pattern[0]], pattern[1..], comps[1..])
  {}

  lemma NextOn(q: Path, at: Path)
    requires at <= q && |at| < |q|
    ensures var next := at + [q[|at|]]; next <= q && q[|next|..] == q[|at|..][1..]
  {
    assert q[..|at| + 1] == at + [q[|at|]];
  }

  lemma ReachStep<M>(t: Trie<M>, q: Path, at: Path, comps: seq<string>) returns (k: nat)
    requires HoldsOnly(t, q) && at <= q && |at| + 1 < |q| && AllLiteral(comps) && Reaches(t, at, q[|at|..], comps)
    ensures var next := at + [q[|at|]];
      && next <= q && k <= |comps| && Reaches(t, next, q[|next|..], comps[k..])
      && Bound(q[|at|..]) <= Bound(q[|next|..]) + k
  {
    var pattern := q[|at|..];
    NextOn(q, at);
    BoundTail(pattern);
    if pattern[0] == "**" {
      k := Resumption(t, q, at, comps);
    } else {
      PlainStep(t, at, pattern, comps);
      k := 1;
    }
  }

  lemma ReachLast<M>(t: Trie<M>, at: Path, pattern: Path, comps: seq<string>)
    requires |pattern| <= 1 && Reaches(t, at, pattern, comps)
    ensures |comps| >= Bound(pattern)
  {
    assert |pattern| == 1 ==> pattern[1..] == [] && Shortest(pattern[1..]) == [];
  }

  /** In a trie that holds one pattern, what reaches it is as long as its shortest match, and longer if it is unsafe. */
  lemma {:induction false} ReachesLength<M>(t: Trie<M>, q: Path, at: Path, comps: seq<string>)
    requires HoldsOnly(t, q) && at <= q && AllLiteral(comps) && Reaches(t, at, q[|at|..], comps)
    ensures |comps| >= Bound(q[|at|..])
    decreases |q| - |at|
  {
    if |at| + 1 < |q| {
      var k := ReachStep(t, q, at, comps);
      ReachesLength(t, q, at + [q[|at|]], comps[k..]);
    } else {
      ReachLast(t, at, q[|at|..], comps);
    }
  }

  /** A lone pattern is found by every request that matches it if and only if it is deep-safe. */
  lemma DeepSafeExact<M>(t: Trie<M>, q: Path)
    requires HoldsOnly(t, q)
    ensures IsDeepSafe(q) <==>
      forall comps | NonEmptyComponents(comps) && GlobNonEmpty(q, comps) :: Find(t, [], comps).Some?
  {
    if IsDeepSafe(q) {
      forall comps | NonEmptyComponents(comps) && GlobNonEmpty(q, comps) ensures Find(t, [], comps).Some? {
        Complete(t, comps, q);
      }
    } else {
      UnsafeMissed(t, q);
    }
  }

  /** A pattern that is not deep-safe is missed by its shortest match, even when it is alone in the trie. */
  lemma UnsafeMissed<M>(t: Trie<M>, q: Path)
    requires HoldsOnly(t, q) && !IsDeepSafe(q)
    ensures var comps := Shortest(q);
      NonEmptyComponents(comps) && GlobNonEmpty(q, comps) && Find(t, [], comps).None?
  {
    var comps := Shortest(q);
    assert NonEmptyComponents(q);
    ShortestLiteral(q);
    ShortestMatches(q);
    FindExact(t, comps);
    if Find(t, [], comps).Some? {
      assert q[0..] == q;
      ReachesLength(t, q, [], comps);
    }
  }

  // ----- priority -----

  ghost predicate NoDeepEdge<M>(t: Trie<M>) {
    forall p | p in t :: "**" !in p
  }

  /** `r` takes the literal edge where it first leaves `q`. */
  ghost predicate Prefers(r: Path, q: Path, comps: seq<string>) {
    r == q || exists i | 0 <= i < |r| && i < |q| && i < |comps| :: r[..i] == q[..i] && r[i] != q[i] && r[i] == comps[i]
  }

  lemma PrefersStep(r: Path, q: Path, comps: seq<string>)
    requires r != [] && q != [] && comps != [] && r[0] == q[0] && Prefers(r[1..], q[1..], comps[1..])
    ensures Prefers(r, q, comps)
  {
    if r[1..] == q[1..] {
      assert r == [r[0]] + r[1..] && q == [q[0]] + q[1..];
    } else {
      var i :| 0 <= i < |r[1..]| && i < |q[1..]| && i < |comps[1..]|
        && r[1..][..i] == q[1..][..i] && r[1..][i] != q[1..][i] && r[1..][i] == comps[1..][i];
      assert r[..i + 1] == [r[0]] + r[1..][..i] && q[..i + 1] == [q[0]] + q[1..][..i];
    }
  }

  /** Without a `**` edge the search tries the literal edge, then the `*` edge. */
  lemma FindNoDeep<M>(t: Trie<M>, at: Path, comps: seq<string>)
    requires at in t && at + ["**"] !in t && comps != [] && comps[0] != ""
    ensures var lit, star := at + [comps[0]], at + ["*"];
      Find(t, at, comps) ==
        if lit in t && Find(t, lit, comps[1..]).Some? then Find(t, lit, comps[1..])
        else if star in t then Find(t, star, comps[1..]) else None
  {}

  lemma PrefersBelow(at: Path, c: string, r: Path, q: Path, comps: seq<string>)
    requires at + [c] <= r && at + [c] <= q && comps != []
    requires Prefers(r[|at| + 1..], q[|at| + 1..], comps[1..])
    ensures Prefers(r[|at|..], q[|at|..], comps)
  {
    var a, b := r[|at|..], q[|at|..];
    assert a[0] == c == b[0] && a[1..] == r[|at| + 1..] && b[1..] == q[|at| + 1..];
    PrefersStep(a, b, comps);
  }

  lemma PrefersHere(at: Path, r: Path, q: Path, comps: seq<string>)
    requires comps != [] && at + [comps[0]] <= r && at <= q && |at| < |q| && q[|at|] != comps[0]
    ensures Prefers(r[|at|..], q[|at|..], comps)
  {
    var a, b := r[|at|..], q[|at|..];
    assert a[0] == comps[0] != b[0] && a[..0] == b[..0];
  }

  lemma {:induction false} FindPrefers<M>(t: Trie<M>, at: Path, comps: seq<string>, q: Path)
    requires IsTrie(t) && NoDeepEdge(t) && at in t && NonEmptyComponents(comps)
    requires q in t && t[q] != [] && at <= q && Glob(q[|at|..], comps)
    ensures var r := Find(t, at, comps);
            r.Some? && at <= r.value && Prefers(r.value[|at|..], q[|at|..], comps)
    decreases |comps|
  {
    var rest := q[|at|..];
    assert rest != [] ==> rest[0] == q[|at|] && rest[0] in q;
    if comps == [] {
      assert rest == [] && q == at;
    } else {
      var next := at + [rest[0]];
      assert next == q[..|at| + 1] && rest[1..] == q[|next|..];
      PrefixIn(t, next, q);
      assert at + ["**"] !in t by { assert (at + ["**"])[|at|] == "**"; }
      FindPrefers(t, next, comps[1..], q);
      FindNoDeep(t, at, comps);
      var lit := at + [comps[0]];
      if rest[0] == comps[0] || lit !in t || Find(t, lit, comps[1..]).None? {
        PrefersBelow(at, rest[0], Find(t, next, comps[1..]).value, q, comps);
      } else {
        FindSound(t, lit, comps[1..]);
        PrefersHere(at, Find(t, lit, comps[1..]).value, q, comps);
      }
    }
  }

  /**
   * Priority: with no `**` edge, the search succeeds exactly when some stored pattern matches, and
   * the pattern found has the literal wherever it first differs from another matching one.
   */
  lemma Priority<M>(t: Trie<M>, comps: seq<string>)
    requires IsTrie(t) && NoDeepEdge(t) && NonEmptyComponents(comps)
    ensures Find(t, [], comps).Some? <==> exists q | q in t :: t[q] != [] && Glob(q, comps)
    ensures forall q | q in t && t[q] != [] && Glob(q, comps) ::
              Find(t, [], comps).Some? && Prefers(Find(t, [], comps).value, q, comps)
  {
    Sound(t, comps);
    forall q | q in t && t[q] != [] && Glob(q, comps)
      ensures Find(t, [], comps).Some? && Prefers(Find(t, [], comps).value, q, comps)
    {
      assert q[0..] == q;
      FindPrefers(t, [], comps, q);
      var r := Find(t, [], comps).value;
      assert r[0..] == r;
    }
  }
}
