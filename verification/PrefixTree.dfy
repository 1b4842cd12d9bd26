/** The prefix tree of the configuration cache: a trie and a flat index over the same nodes. */
module PrefixTrees {
  import opened Wrappers
  import opened Strings

  type Path = seq<string>

  class PrefixTreeNode<V> {
    var meta: Option<V>
    var children: map<string, PrefixTreeNode<V>>
    /** The path of this node. */
    ghost const at: Path

    constructor (ghost at: Path)
      ensures meta == None && children == map[] && this.at == at
    {
      meta := None;
      children := map[];
      this.at := at;
    }
  }

  /** A key none of whose segments is empty; `Put` drops all others. */
  predicate IsKey(key: string, sep: char) {
    forall i | 0 <= i < |Split(key, sep)| :: Split(key, sep)[i] != ""
  }

  predicate IsSegment(c: string, sep: char) {
    c != "" && sep !in c
  }

  // ----- subtrees of a key-to-value map -----

  ghost function Subtree<V>(view: map<string, V>, sep: char, at: Path): map<string, V> {
    map key | key in view && at <= Split(key, sep) :: view[key]
  }

  /** The part of a subtree made of its root and the children in `done`. */
  ghost function Visited<V>(view: map<string, V>, sep: char, at: Path, done: set<string>): map<string, V> {
    map key | key in view && at <= Split(key, sep)
              && (Split(key, sep) == at || Split(key, sep)[|at|] in done) :: view[key]
  }

  lemma ExtendsBy(at: Path, k: string, p: Path)
    ensures at + [k] <= p <==> at <= p && p != at && p[|at|] == k
  {
    if at <= p && p != at && p[|at|] == k {
      assert p[..|at| + 1] == at + [k];
    }
  }

  lemma VisitChild<V>(view: map<string, V>, sep: char, at: Path, done: set<string>, k: string)
    ensures Visited(view, sep, at, done + {k}) == Visited(view, sep, at, done) + Subtree(view, sep, at + [k])
  {
    forall key | key in view
      ensures at + [k] <= Split(key, sep) <==>
              at <= Split(key, sep) && Split(key, sep) != at && Split(key, sep)[|at|] == k
    {
      ExtendsBy(at, k, Split(key, sep));
    }
  }

  /** The traversal has visited all children but those in `ks`. */
  ghost predicate VisitedBut<V>(
    r: map<string, V>, view: map<string, V>, sep: char, at: Path, all: set<string>, ks: set<string>)
  {
    r == Visited(view, sep, at, all - ks)
  }

  lemma VisitNext<V>(
    r: map<string, V>, view: map<string, V>, sep: char, at: Path, all: set<string>, ks: set<string>, k: string)
    requires k in ks && ks <= all && VisitedBut(r, view, sep, at, all, ks)
    ensures VisitedBut(r + Subtree(view, sep, at + [k]), view, sep, at, all, ks - {k})
  {
    VisitChild(view, sep, at, all - ks, k);
    assert all - (ks - {k}) == (all - ks) + {k};
  }

  /** The keys equal to the prefix or extending it by whole segments; all keys for the empty prefix. */
  ghost function WithPrefix<V>(view: map<string, V>, sep: char, prefix: string): map<string, V> {
    map key | key in view && (prefix == "" || key == prefix || prefix + [sep] <= key) :: view[key]
  }

  lemma SubtreeIsPrefix<V>(view: map<string, V>, sep: char, prefix: string)
    ensures Subtree(view, sep, []) == WithPrefix(view, sep, "")
    ensures prefix != "" ==> Subtree(view, sep, Split(prefix, sep)) == WithPrefix(view, sep, prefix)
  {
    forall key | key in view
      ensures Split(prefix, sep) <= Split(key, sep) <==> key == prefix || prefix + [sep] <= key
    {
      SplitPrefix(prefix, key, sep);
    }
  }

  class PrefixTree<V> {
    var root: PrefixTreeNode<V>
    const separator: char
    var prefixCache: map<string, seq<string>>
    var m: map<string, PrefixTreeNode<V>>
    /** The node at each path. */
    ghost var nodes: map<Path, PrefixTreeNode<V>>
    /** All nodes. */
    ghost var repr: set<PrefixTreeNode<V>>

    // ----- the trie -----

    ghost predicate HasParent(p: Path)
      reads this`nodes
    {
      p != [] ==> p[..|p| - 1] in nodes && IsSegment(p[|p| - 1], separator)
    }

    ghost predicate Linked(p: Path, k: string)
      requires p in nodes && nodes[p] in repr
      reads this`nodes, this`repr, repr`children
    {
      && (k in nodes[p].children <==> p + [k] in nodes)
      && (k in nodes[p].children ==> nodes[p].children[k] == nodes[p + [k]])
    }

    ghost predicate ValidTrie()
      reads this`root, this`nodes, this`repr, repr`children
    {
      && [] in nodes && nodes[[]] == root
      && (forall p {:trigger HasParent(p)} | p in nodes :: HasParent(p))
      && (forall p | p in nodes :: nodes[p] in repr && nodes[p].at == p)
      && (forall p, k {:trigger Linked(p, k)} | p in nodes :: Linked(p, k))
    }

    // ----- the index -----

    /** The index entry of a key is the node its segments walk to, and that node has a value. */
    ghost predicate Indexed(key: string)
      requires key in m
      reads this`m, this`nodes, this`repr, repr`meta
    {
      var p := Split(key, separator);
      p in nodes && m[key] == nodes[p] && nodes[p] in repr && nodes[p].meta.Some?
    }

    /** A node has a value only if the key of its path is indexed. */
    ghost predicate Reported(p: Path)
      requires p in nodes && nodes[p] in repr
      reads this`m, this`nodes, this`repr, repr`meta
    {
      nodes[p].meta.Some? ==> p != [] && Join(p, separator) in m
    }

    ghost predicate ValidIndex()
      reads this`m, this`nodes, this`repr, repr`meta
    {
      && (forall p | p in nodes :: nodes[p] in repr)
      && (forall key {:trigger Indexed(key)} | key in m :: Indexed(key))
      && (forall p {:trigger Reported(p)} | p in nodes :: Reported(p))
    }

    ghost predicate ValidMemo()
      reads this`prefixCache
    {
      forall key | key in prefixCache :: prefixCache[key] == Split(key, separator)
    }

    ghost predicate Valid()
      reads this, repr
    {
      ValidTrie() && ValidIndex() && ValidMemo()
    }

    /** The stored keys and values. */
    ghost function View(): map<string, V>
      reads this`m, m.Values`meta
    {
      map key | key in m && m[key].meta.Some? :: m[key].meta.value
    }

    lemma {:induction false} Segments(p: Path)
      requires ValidTrie() && p in nodes
      ensures forall i | 0 <= i < |p| :: IsSegment(p[i], separator)
    {
      if p != [] {
        assert HasParent(p);
        Segments(p[..|p| - 1]);
      }
    }

    lemma {:induction false} PrefixIn(p: Path, q: Path)
      requires ValidTrie() && q in nodes && p <= q
      ensures p in nodes
      decreases |q|
    {
      if p != q {
        assert HasParent(q);
        assert p <= q[..|q| - 1];
        PrefixIn(p, q[..|q| - 1]);
      }
    }

    /** Keys and non-root paths correspond. */
    lemma KeyOf(p: Path)
      requires ValidTrie() && p in nodes && p != []
      ensures Split(Join(p, separator), separator) == p
    {
      Segments(p);
      SplitJoin(p, separator);
    }

    constructor (separator: char)
      ensures Valid() && View() == map[] && fresh(repr) && this.separator == separator
    {
      root := new PrefixTreeNode<V>([]);
      this.separator := separator;
      prefixCache := map[];
      m := map[];
      new;
      nodes := map[[] := root];
      repr := {root};
    }

    method Prefix(key: string) returns (parts: seq<string>)
      requires ValidMemo()
      modifies this`prefixCache
      ensures ValidMemo()
      ensures parts == Split(key, separator)
    {
      if key in prefixCache {
        return prefixCache[key];
      }
      parts := Split(key, separator);
      prefixCache := prefixCache[key := parts];
    }

    /** Adds a missing child without a value. */
    method AddChild(node: PrefixTreeNode<V>, ghost at: Path, c: string) returns (child: PrefixTreeNode<V>)
      requires ValidTrie() && ValidIndex() && at in nodes && nodes[at] == node
      requires IsSegment(c, separator) && c !in node.children
      modifies this`nodes, this`repr, node`children
      ensures ValidTrie() && ValidIndex()
      ensures fresh(child) && nodes == old(nodes)[at + [c] := child]
      ensures repr == old(repr) + {child}
    {
      assert Linked(at, c);
      child := new PrefixTreeNode<V>(at + [c]);
      node.children := node.children[c := child];
      ghost var was := nodes;
      nodes := nodes[at + [c] := child];
      repr := repr + {child};
      assert ValidTrie() by {
        forall p | p in nodes ensures HasParent(p) {
          assert p == at + [c] ==> p[..|p| - 1] == at;
          assert p in was ==> old(HasParent(p));
        }
        forall p, k | p in nodes ensures Linked(p, k) {
          assert (p + [k])[..|p|] == p;
          if p == at + [c] {
            assert p + [k] in was ==> old(HasParent(p + [k]));
          } else {
            assert old(Linked(p, k));
          }
        }
      }
      assert ValidIndex() by {
        forall key | key in m ensures Indexed(key) { assert old(Indexed(key)); }
        forall p | p in nodes ensures Reported(p) { assert p in was ==> old(Reported(p)); }
      }
    }

    method SetValue(key: string, node: PrefixTreeNode<V>, v: V)
      requires ValidTrie() && ValidIndex()
      requires Split(key, separator) in nodes && nodes[Split(key, separator)] == node
      modifies this`m, node`meta
      ensures ValidIndex() && View() == old(View())[key := v]
    {
      OtherKeys(key);
      node.meta := Some(v);
      m := m[key := node];
      assert View() == old(View())[key := v];
      assert ValidIndex() by {
        SplitParts(key, separator);
        forall k | k in m ensures Indexed(k) { assert k in old(m) ==> old(Indexed(k)); }
        forall p | p in nodes ensures Reported(p) { assert old(Reported(p)); }
      }
    }

    /** The nodes of other keys are other nodes. */
    lemma OtherKeys(key: string)
      requires ValidTrie() && ValidIndex() && Split(key, separator) in nodes
      ensures forall k | k in m && k != key :: m[k] != nodes[Split(key, separator)] && m[k].meta.Some?
    {
      forall k | k in m && k != key
        ensures m[k] != nodes[Split(key, separator)] && m[k].meta.Some?
      {
        assert Indexed(k);
        SplitParts(k, separator);
        SplitParts(key, separator);
      }
    }

    /** The loop of `Put`: makes the nodes of a key, stopping at an empty segment. */
    method MakeNode(parts: seq<string>) returns (node: PrefixTreeNode?<V>)
      requires ValidTrie() && ValidIndex()
      requires forall i | 0 <= i < |parts| :: separator !in parts[i]
      modifies this`nodes, this`repr, repr`children
      ensures ValidTrie() && ValidIndex() && fresh(repr - old(repr))
      ensures node == null <==> "" in parts
      ensures node != null ==> parts in nodes && nodes[parts] == node
      ensures forall p | p in old(nodes) :: p in nodes && nodes[p] == old(nodes)[p]
      ensures forall p | p in nodes :: p in old(nodes) || p <= parts
    {
      var current := root;
      for i := 0 to |parts|
        invariant ValidTrie() && ValidIndex() && fresh(repr - old(repr))
        invariant forall p | p in old(nodes) :: p in nodes && nodes[p] == old(nodes)[p]
        invariant forall p | p in nodes :: p in old(nodes) || p <= parts
        invariant parts[..i] in nodes && nodes[parts[..i]] == current
        invariant "" !in parts[..i]
      {
        var c := parts[i];
        if |c| == 0 {
          return null;
        }
        ghost var at := parts[..i];
        assert parts[..i + 1] == at + [c];
        assert Linked(at, c);
        if c in current.children {
          current := current.children[c];
        } else {
          current := AddChild(current, at, c);
        }
      }
      assert parts[..|parts|] == parts;
      return current;
    }

    method Put(key: string, v: V)
      requires Valid()
      modifies this`nodes, this`repr, this`m, this`prefixCache, repr
      ensures Valid() && fresh(repr - old(repr))
      ensures View() == if IsKey(key, separator) then old(View())[key := v] else old(View())
    {
      var parts := Prefix(key);
      SplitParts(key, separator);
      var node := MakeNode(parts);
      if node != null {
        SetValue(key, node, v);
      }
    }

    /** `node`: the node a key walks to, or null. */
    method NodeOf(key: string) returns (node: PrefixTreeNode?<V>)
      requires ValidTrie() && ValidMemo()
      modifies this`prefixCache
      ensures ValidMemo()
      ensures if Split(key, separator) in nodes then node == nodes[Split(key, separator)] else node == null
    {
      node := root;
      var parts := Prefix(key);
      for i := 0 to |parts|
        invariant ValidTrie() && ValidMemo()
        invariant parts[..i] in nodes && nodes[parts[..i]] == node
      {
        var c := parts[i];
        ghost var at := parts[..i];
        assert parts[..i + 1] == at + [c];
        assert Linked(at, c);
        if parts in nodes {
          PrefixIn(at + [c], parts);
          assert HasParent(at + [c]);
        }
        if |c| == 0 {
          return null;
        }
        if c !in node.children {
          return null;
        }
        node := node.children[c];
      }
      assert parts[..|parts|] == parts;
    }

    method Get(key: string) returns (r: Option<V>)
      requires Valid()
      ensures r == if key in View() then Some(View()[key]) else None
    {
      if key !in m {
        return None;
      }
      return m[key].meta;
    }

    /** The walk through the trie and the index give the same answer. */
    lemma TwoViews(key: string)
      requires Valid()
      ensures key in View() <==> Split(key, separator) in nodes && nodes[Split(key, separator)].meta.Some?
      ensures key in View() ==>
        nodes[Split(key, separator)].meta == Some(View()[key]) && m[key] == nodes[Split(key, separator)]
      ensures key in View() ==> IsKey(key, separator)
    {
      var p := Split(key, separator);
      if key in m {
        assert Indexed(key);
        Segments(p);
      }
      if p in nodes {
        assert Reported(p);
        SplitParts(key, separator);
      }
    }

    method Del(key: string)
      requires Valid()
      modifies this`m, this`prefixCache, repr`meta
      ensures Valid()
      ensures View() == old(View()) - {key}
    {
      var node := NodeOf(key);
      if node != null {
        ClearValue(key, node);
      } else {
        AbsentKey(key);
        assert m - {key} == m;
        m := m - {key};
      }
    }

    method ClearValue(key: string, node: PrefixTreeNode<V>)
      requires ValidTrie() && ValidIndex()
      requires Split(key, separator) in nodes && nodes[Split(key, separator)] == node
      modifies this`m, node`meta
      ensures ValidIndex() && View() == old(View()) - {key}
    {
      OtherKeys(key);
      forall p | p in nodes && p != [] ensures Split(Join(p, separator), separator) == p {
        KeyOf(p);
      }
      node.meta := None;
      m := m - {key};
      assert View() == old(View()) - {key};
      assert ValidIndex() by {
        forall k | k in m ensures Indexed(k) { assert old(Indexed(k)); }
        forall p | p in nodes ensures Reported(p) { assert old(Reported(p)); }
      }
    }

    lemma AbsentKey(key: string)
      requires ValidIndex() && Split(key, separator) !in nodes
      ensures key !in m
    {
      assert key in m ==> Indexed(key);
    }

    method Keys() returns (keys: seq<string>)
      requires Valid()
      ensures multiset(keys) == multiset(View().Keys)
    {
      keys := [];
      var rest := m.Keys;
      while rest != {}
        invariant rest <= m.Keys
        invariant multiset(keys) == multiset(m.Keys - rest)
        decreases rest
      {
        var k :| k in rest;
        keys := keys + [k];
        rest := rest - {k};
        assert m.Keys - rest == (m.Keys - (rest + {k})) + {k};
      }
      forall k | k in m ensures k in View() { assert Indexed(k); }
      assert m.Keys == View().Keys;
      assert m.Keys - rest == m.Keys;
    }

    method Clear()
      requires Valid()
      modifies this
      ensures Valid() && View() == map[] && fresh(repr)
    {
      root := new PrefixTreeNode<V>([]);
      prefixCache := map[];
      m := map[];
      nodes := map[[] := root];
      repr := {root};
    }

    // ----- searching by prefix -----

    lemma VisitRoot(at: Path)
      requires Valid() && at in nodes
      ensures at == [] ==> Visited(View(), separator, at, {}) == map[]
      ensures at != [] ==> Join(at, separator) != ""
      ensures at != [] && nodes[at].meta.None? ==> Visited(View(), separator, at, {}) == map[]
      ensures at != [] && nodes[at].meta.Some?
        ==> Visited(View(), separator, at, {}) == map[Join(at, separator) := nodes[at].meta.value]
    {
      if at != [] {
        var key := Join(at, separator);
        KeyOf(at);
        Segments(at);
        TwoViews(key);
        forall k | k in View() && Split(k, separator) == at ensures k == key {
          SplitParts(k, separator);
        }
      }
    }

    lemma VisitAll(at: Path)
      requires Valid() && at in nodes
      ensures Visited(View(), separator, at, nodes[at].children.Keys) == Subtree(View(), separator, at)
    {
      forall key | key in View() && at <= Split(key, separator) && Split(key, separator) != at
        ensures Split(key, separator)[|at|] in nodes[at].children
      {
        var p := Split(key, separator);
        TwoViews(key);
        ExtendsBy(at, p[|at|], p);
        PrefixIn(at + [p[|at|]], p);
        assert Linked(at, p[|at|]);
      }
    }

    ghost function Below(at: Path): set<Path>
      reads this`nodes
    {
      set p | p in nodes && at < p
    }

    /** What the traversal knows when it moves from a node to one of its children. */
    lemma ToChild(at: Path, k: string)
      requires ValidTrie() && at in nodes && k in nodes[at].children
      ensures at + [k] in nodes && nodes[at].children[k] == nodes[at + [k]]
      ensures Below(at + [k]) < Below(at)
      ensures Join(at + [k], separator) == if at == [] then k else Join(at, separator) + [separator] + k
    {
      assert Linked(at, k);
      assert at + [k] in Below(at) && at + [k] !in Below(at + [k]);
      if at == [] {
        assert at + [k] == [k];
      } else {
        JoinAppend(at, [k], separator);
      }
    }

    /** The recursive traversal of `SearchByPrefix`. */
    method Travel(name: string, node: PrefixTreeNode<V>, ghost at: Path) returns (r: map<string, V>)
      requires Valid() && at in nodes && nodes[at] == node && name == Join(at, separator)
      ensures r == Subtree(View(), separator, at)
      decreases Below(at), 3
    {
      VisitRoot(at);
      r := map[];
      if |name| != 0 && node.meta.Some? {
        r := r[name := node.meta.value];
      }
      r := TravelChildren(name, node, at, r);
      VisitAll(at);
    }

    /** Its loop over the children. */
    method TravelChildren(name: string, node: PrefixTreeNode<V>, ghost at: Path, r0: map<string, V>)
        returns (r: map<string, V>)
      requires Valid() && at in nodes && nodes[at] == node && name == Join(at, separator)
      requires r0 == Visited(View(), separator, at, {})
      ensures r == Visited(View(), separator, at, node.children.Keys)
      decreases Below(at), 2
    {
      ghost var all := node.children.Keys;
      var ks := node.children.Keys;
      r := r0;
      assert all - ks == {};
      while ks != {}
        invariant ks <= all && VisitedBut(r, View(), separator, at, all, ks)
        decreases ks
      {
        var k :| k in ks;
        r := TravelNext(name, node, at, k, ks, r);
        ks := ks - {k};
      }
      assert all - {} == all;
    }

    /** One turn of the loop. */
    method TravelNext(
        name: string, node: PrefixTreeNode<V>, ghost at: Path, k: string, ghost ks: set<string>, r0: map<string, V>)
        returns (r: map<string, V>)
      requires Valid() && at in nodes && nodes[at] == node && name == Join(at, separator)
      requires k in ks && ks <= node.children.Keys
      requires VisitedBut(r0, View(), separator, at, node.children.Keys, ks)
      ensures VisitedBut(r, View(), separator, at, node.children.Keys, ks - {k})
      decreases Below(at), 1
    {
      VisitNext(r0, View(), separator, at, node.children.Keys, ks, k);
      var below := TravelChild(name, node, at, k);
      r := r0 + below;
    }

    method TravelChild(name: string, node: PrefixTreeNode<V>, ghost at: Path, k: string) returns (r: map<string, V>)
      requires Valid() && at in nodes && nodes[at] == node && name == Join(at, separator) && k in node.children
      ensures r == Subtree(View(), separator, at + [k])
      decreases Below(at), 0
    {
      ToChild(at, k);
      VisitRoot(at);
      var childName := if |name| != 0 then name + [separator] + k else k;
      r := Travel(childName, node.children[k], at + [k]);
    }

    lemma NoNode(prefix: string)
      requires Valid() && Split(prefix, separator) !in nodes
      ensures Subtree(View(), separator, Split(prefix, separator)) == map[]
    {
      forall key | key in View() ensures !(Split(prefix, separator) <= Split(key, separator)) {
        TwoViews(key);
        if Split(prefix, separator) <= Split(key, separator) {
          PrefixIn(Split(prefix, separator), Split(key, separator));
        }
      }
    }

    /** Exactly the stored keys equal to the prefix or extending it by whole segments. */
    method SearchByPrefix(prefix: string) returns (result: map<string, V>)
      requires Valid()
      modifies this`prefixCache
      ensures Valid()
      ensures result == WithPrefix(View(), separator, prefix)
    {
      SubtreeIsPrefix(View(), separator, prefix);
      if |prefix| == 0 {
        result := Travel(prefix, root, []);
      } else {
        result := SearchBelow(prefix);
      }
    }

    /** The search from the node of a prefix that is not empty. */
    method SearchBelow(prefix: string) returns (result: map<string, V>)
      requires Valid() && prefix != ""
      modifies this`prefixCache
      ensures Valid() && View() == old(View())
      ensures result == Subtree(View(), separator, Split(prefix, separator))
    {
      var node := NodeOf(prefix);
      SplitParts(prefix, separator);
      if node != null {
        result := Travel(prefix, node, Split(prefix, separator));
      } else {
        NoNode(prefix);
        result := map[];
      }
    }
  }
}
