/** The path matcher of `http/matcher.go`: an in-place trie and its backtracking search. */
module Matcher {
  import opened Wrappers
  import opened Search

  class PathSegment<M> {
    var meta: seq<M>
    var children: map<string, PathSegment<M>>
    /** The path of this node. */
    ghost const at: Path

    constructor (ghost at: Path)
      ensures meta == [] && children == map[] && this.at == at
    {
      meta := [];
      children := map[];
      this.at := at;
    }
  }

  /** The trie with the first `n` prefixes of `comps` present. */
  ghost function Grow<M>(t: Trie<M>, comps: seq<string>, n: nat): (r: Trie<M>)
    requires n <= |comps|
    ensures n > 0 ==> comps[..n] in r
  {
    if n == 0 then t else
    var g := Grow(t, comps, n - 1);
    if comps[..n] in g then g else g[comps[..n] := []]
  }

  function FirstEmpty(comps: seq<string>): (n: nat)
    ensures n <= |comps| && NonEmptyComponents(comps[..n]) && (n < |comps| ==> comps[n] == "")
  {
    if comps == [] || comps[0] == "" then 0 else 1 + FirstEmpty(comps[1..])
  }

  /** What adding a pattern does to the trie; an empty component leaves the nodes made so far. */
  ghost function Insert<M>(t: Trie<M>, comps: seq<string>, meta: M): Trie<M>
    requires [] in t
  {
    var g := Grow(t, comps, FirstEmpty(comps));
    if FirstEmpty(comps) < |comps| then g
    else
      GrowHas(t, comps, |comps|);
      assert comps[..|comps|] == comps;
      g[comps := g[comps] + [meta]]
  }

  lemma {:induction false} GrowHas<M>(t: Trie<M>, comps: seq<string>, n: nat)
    requires [] in t && n <= |comps|
    ensures [] in Grow(t, comps, n) && comps[..n] in Grow(t, comps, n)
  {
    if n > 0 {
      GrowHas(t, comps, n - 1);
    }
  }

  lemma {:induction false} FirstEmptyIs(comps: seq<string>, n: nat)
    requires n <= |comps| && NonEmptyComponents(comps[..n]) && (n < |comps| ==> comps[n] == "")
    ensures FirstEmpty(comps) == n
  {
    if n > 0 {
      assert comps[0] == comps[..n][0];
      assert comps[1..][..n - 1] == comps[..n][1..];
      FirstEmptyIs(comps[1..], n - 1);
    }
  }

  class PathMatcher<M> {
    var root: PathSegment<M>
    /** The node at each path. */
    ghost var nodes: map<Path, PathSegment<M>>

    ghost predicate Linked(p: Path, k: string)
      requires p in nodes
      reads this, nodes.Values
    {
      && (k in nodes[p].children <==> p + [k] in nodes)
      && (k in nodes[p].children ==> nodes[p].children[k] == nodes[p + [k]])
    }

    ghost predicate HasParent(p: Path)
      reads this
    {
      p != [] ==> p[..|p| - 1] in nodes && p[|p| - 1] != ""
    }

    ghost predicate Valid()
      reads this, nodes.Values
    {
      && [] in nodes && nodes[[]] == root
      && (forall p {:trigger HasParent(p)} | p in nodes :: HasParent(p))
      && (forall p | p in nodes :: nodes[p].at == p)
      && (forall p, k {:trigger Linked(p, k)} | p in nodes :: Linked(p, k))
    }

    ghost function Contents(): Trie<M>
      reads this, nodes.Values
    {
      map p | p in nodes :: nodes[p].meta
    }

    constructor ()
      ensures Valid() && fresh(nodes.Values)
      ensures Contents() == map[[] := []]
    {
      root := new PathSegment<M>([]);
      new;
      nodes := map[[] := root];
    }

    method Clear()
      requires Valid()
      modifies this
      ensures Valid() && fresh(nodes.Values)
      ensures Contents() == map[[] := []]
    {
      root := new PathSegment<M>([]);
      nodes := map[[] := root];
    }

    /** Adds a missing child, keeping the links. */
    method AddChild(node: PathSegment<M>, ghost at: Path, c: string) returns (child: PathSegment<M>)
      requires Valid() && at in nodes && nodes[at] == node
      requires c != "" && c !in node.children
      modifies this, node
      ensures Valid() && fresh(child) && child.meta == []
      ensures nodes == old(nodes)[at + [c] := child] && at + [c] !in old(nodes)
      ensures root == old(root) && node.meta == old(node.meta)
    {
      assert Linked(at, c);
      child := new PathSegment<M>(at + [c]);
      node.children := node.children[c := child];
      ghost var was := nodes;
      nodes := nodes[at + [c] := child];
      forall p | p in nodes ensures HasParent(p) {
        assert p == at + [c] ==> p[..|p| - 1] == at;
        assert p in was ==> old(HasParent(p));
      }
      forall p, k | p in nodes ensures Linked(p, k) {
        assert (p + [k])[..|p|] == p;
        if p == at + [c] {
          assert p + [k] in was ==> old(HasParent(p + [k]));
        } else {
          assert old(Linked(p, k));
        }
      }
    }

    method SetMeta(node: PathSegment<M>, ghost at: Path, meta: M)
      requires Valid() && at in nodes && nodes[at] == node
      modifies node`meta
      ensures Valid() && Contents() == old(Contents())[at := old(node.meta) + [meta]]
    {
      assert forall p | p in nodes :: nodes[p] == node <==> p == at;
      node.meta := node.meta + [meta];
      forall p, k | p in nodes ensures Linked(p, k) {
        assert old(Linked(p, k));
      }
    }

    method AddPattern(components: seq<string>, meta: M) returns (ok: bool)
      requires Valid()
      modifies this, nodes.Values
      ensures Valid() && fresh(nodes.Values - old(nodes.Values))
      ensures ok <==> NonEmptyComponents(components)
      ensures Contents() == Insert(old(Contents()), components, meta)
    {
      var node := root;
      ghost var before := Contents();
      for i := 0 to |components|
        invariant Valid() && fresh(nodes.Values - old(nodes.Values))
        invariant components[..i] in nodes && nodes[components[..i]] == node
        invariant NonEmptyComponents(components[..i])
        invariant Contents() == Grow(before, components, i)
        modifies this, nodes.Values
      {
        var p := components[i];
        if |p| == 0 {
          FirstEmptyIs(components, i);
          assert components[i] == "";
          return false;
        }
        ghost var at := components[..i];
        assert components[..i + 1] == at + [p];
        assert Linked(at, p);
        if p in node.children {
          node := node.children[p];
        } else {
          node := AddChild(node, at, p);
        }
      }
      assert components[..|components|] == components;
      FirstEmptyIs(components, |components|);
      SetMeta(node, components, meta);
      return true;
    }

    /** `matchInternal`: the backtracking search, ending because it uses up components or descends. */
    method MatchInternal(components: seq<string>, seg: PathSegment<M>, ghost at: Path)
        returns (found: bool, meta: seq<M>)
      requires Valid() && at in nodes && nodes[at] == seg
      ensures var r := Find(Contents(), at, components);
              if r.Some? then found && r.value in Contents() && meta == Contents()[r.value]
              else !found && meta == []
      decreases |components|, Below(Contents(), at), 0
    {
      ghost var t := Contents();
      if |components| == 0 {
        if seg.meta != [] {
          return true, seg.meta;
        }
        return false, [];
      }
      FindSound(t, at, components);
      var component := components[0];
      if |component| == 0 {
        return false, [];
      }
      assert Linked(at, component) && Linked(at, "*") && Linked(at, "**");
      if component in seg.children {
        FindSound(t, at + [component], components[1..]);
        found, meta := MatchInternal(components[1..], seg.children[component], at + [component]);
        if found {
          return;
        }
      }
      if "*" in seg.children {
        FindSound(t, at + ["*"], components[1..]);
        found, meta := MatchInternal(components[1..], seg.children["*"], at + ["*"]);
        if found {
          return;
        }
      }
      if "**" !in seg.children {
        return false, [];
      }
      BelowShrinks(t, at, "**");
      found, meta := MatchDeep(components, seg.children["**"], at + ["**"]);
      if found {
        return;
      }
      var node := seg.children["**"];
      if node.meta != [] {
        return true, node.meta;
      }
      return false, [];
    }

    /** The loop over the positions at which the search may resume below `**`. */
    method MatchDeep(components: seq<string>, node: PathSegment<M>, ghost at: Path)
        returns (found: bool, meta: seq<M>)
      requires Valid() && at in nodes && nodes[at] == node
      ensures var r := FindDeep(Contents(), at, components, 0);
              if r.Some? then found && r.value in Contents() && meta == Contents()[r.value]
              else !found && meta == []
      decreases |components|, Below(Contents(), at), 1
    {
      ghost var t := Contents();
      assert Linked(at, "*");
      if node.children != map[] {
        for i := 0 to |components|
          invariant FindDeep(t, at, components, 0) == FindDeep(t, at, components, i)
        {
          assert Linked(at, components[i]);
          if components[i] in node.children {
            found, meta := MatchInternal(components[i..], node, at);
            if found {
              return;
            }
          } else if "*" in node.children {
            found, meta := MatchInternal(components[i + 1..], node, at);
            if found {
              return;
            }
          }
        }
      } else {
        NoChildren(t, at, components, 0);
      }
      return false, [];
    }

    lemma {:induction false} NoChildren(t: Trie<M>, at: Path, components: seq<string>, i: nat)
      requires Valid() && at in nodes && nodes[at].children == map[] && t == Contents() && i <= |components|
      ensures FindDeep(t, at, components, i) == None
      decreases |components| - i
    {
      if i < |components| {
        assert Linked(at, components[i]) && Linked(at, "*");
        NoChildren(t, at, components, i + 1);
      }
    }

    /** `Match` on the components of a request. */
    method Match(components: seq<string>) returns (ok: bool, metas: seq<M>)
      requires Valid()
      ensures var r := Find(Contents(), [], components);
              if r.Some? then ok && r.value in Contents() && metas == Contents()[r.value] else !ok && metas == []
    {
      ok, metas := MatchInternal(components, root, []);
    }
  }
}
