/**
  The domain trie of redog-component/src/trie.rs, grown in place. The ghost
  `tree` names every node by its label path, and the ghost `view` holds the data
  stored at each path; the methods are stated on the view.
 */
module Trie {
  import opened Options
  import opened Text
  import opened DomainLabels

  const EXACT := "__exact__"

  class TrieNode {
    var children: map<string, TrieNode>
    var data: Option<string>

    /** The labels from the root down to this node. */
    ghost const path: Path

    constructor (ghost path: Path)
      ensures children == map[] && data == None && this.path == path
    {
      children, data := map[], None;
      this.path := path;
    }
  }

  /** The data at the longest nonempty prefix of the path that has any. */
  function LongestMatch(view: map<Path, string>, path: Path): Option<string> {
    if path == [] then None
    else if path in view then Some(view[path])
    else LongestMatch(view, path[..|path| - 1])
  }

  /** The nodes by label path, and for each path the child map of its node. */
  datatype Links = Links(nodes: map<Path, TrieNode>, kids: map<Path, map<string, TrieNode>>)

  /** One tree: children are the one-label extensions, and every prefix of a node's path is a node. */
  ghost predicate WellLinked(t: Links) {
    && t.kids.Keys == t.nodes.Keys
    && (forall p, key :: p in t.kids && key in t.kids[p] ==>
          && p + [key] in t.nodes
          && t.kids[p][key] == t.nodes[p + [key]])
    && (forall q, i :: q in t.nodes && 0 <= i < |q| ==> q[..i] in t.kids && q[i] in t.kids[q[..i]])
  }

  lemma ChildKeepsLinks(t: Links, path: Path, key: string, child: TrieNode)
    requires WellLinked(t) && path in t.nodes && key !in t.kids[path]
    ensures path + [key] !in t.nodes
    ensures WellLinked(Links(t.nodes[path + [key] := child],
                             t.kids[path := t.kids[path][key := child]][path + [key] := map[]]))
  {
    var below := path + [key];
    assert below[..|path|] == path && below[|path|] == key;
    var nodes' := t.nodes[below := child];
    var kids' := t.kids[path := t.kids[path][key := child]][below := map[]];
    forall p, k | p in kids' && k in kids'[p]
      ensures p + [k] in nodes' && kids'[p][k] == nodes'[p + [k]]
    {
      if p + [k] == below {
        assert p == (p + [k])[..|p|] && k == (p + [k])[|p|];
        assert p == path && k == key;
      }
    }
    forall q, i | q in nodes' && 0 <= i < |q|
      ensures q[..i] in kids' && q[i] in kids'[q[..i]]
    {
      if q == below {
        assert q[..i] == path[..i];
        assert i == |path| ==> path[..i] == path;
      } else {
        assert q[i] in t.kids[q[..i]];
        if q[..i] == below {
          assert q[..i] in t.nodes;
        }
      }
    }
  }

  type Tree = t: Links | WellLinked(t) ghost witness Links(map[], map[])

  ghost function WithChild(t: Tree, path: Path, key: string, child: TrieNode): Tree
    requires path in t.nodes && key !in t.kids[path]
  {
    ChildKeepsLinks(t, path, key, child);
    Links(t.nodes[path + [key] := child], t.kids[path := t.kids[path][key := child]][path + [key] := map[]])
  }

  class DomainTrie {
    const root: TrieNode
    ghost var tree: Tree

    /** The data stored in the trie, by label path. */
    ghost var view: map<Path, string>

    ghost var Repr: set<object>

    ghost predicate Valid()
      reads this, Repr
      ensures Valid() ==> this in Repr
    {
      && this in Repr
      && [] in tree.nodes && tree.nodes[[]] == root
      && (forall p :: p in view ==> p in tree.nodes)
      && (forall p :: p in tree.nodes ==> tree.nodes[p] in Repr && Stored(p, tree.nodes[p]))
    }

    /** A node holds what the ghost state records for its path. */
    ghost predicate Stored(p: Path, node: TrieNode)
      reads this, node
    {
      && p in tree.kids
      && node.path == p
      && node.children == tree.kids[p]
      && node.data == if p in view then Some(view[p]) else None
    }

    constructor ()
      ensures Valid() && fresh(Repr) && view == map[]
    {
      root := new TrieNode([]);
      new;
      tree, view, Repr := Links(map[[] := root], map[[] := map[]]), map[], {this, root};
    }

    /** children.entry(key).or_default(): the child at a label, made if missing. */
    method Descend(node: TrieNode, ghost path: Path, key: string) returns (child: TrieNode)
      requires Valid() && path in tree.nodes && tree.nodes[path] == node
      modifies this, node
      ensures Valid() && fresh(Repr - old(Repr))
      ensures path + [key] in tree.nodes && tree.nodes[path + [key]] == child
      ensures view == old(view)
    {
      if key !in node.children {
        AddChild(node, path, key);
      }
      assert key in tree.kids[path];
      child := node.children[key];
    }

    method AddChild(node: TrieNode, ghost path: Path, key: string)
      requires Valid() && path in tree.nodes && tree.nodes[path] == node && key !in node.children
      modifies this, node
      ensures Valid() && fresh(Repr - old(Repr))
      ensures path in tree.nodes && tree.nodes[path] == node && key in node.children
      ensures view == old(view)
    {
      var child := new TrieNode(path + [key]);
      ChildKeepsLinks(tree, path, key, child);
      node.children := node.children[key := child];
      ghost var before := tree;
      tree, Repr := WithChild(tree, path, key, child), Repr + {child};
      forall p | p in tree.nodes
        ensures tree.nodes[p] in Repr && Stored(p, tree.nodes[p])
      {
        if p != path && p != path + [key] {
          assert old(Stored(p, before.nodes[p]));
        }
      }
    }

    /** Walks down by labels, making the nodes that are missing. */
    method Walk(labels: seq<string>) returns (node: TrieNode)
      requires Valid()
      modifies Repr
      ensures Valid() && fresh(Repr - old(Repr))
      ensures LowerAll(labels) in tree.nodes && tree.nodes[LowerAll(labels)] == node
      ensures view == old(view)
    {
      hide LowerAll, Lower;
      ghost var path := LowerAll(labels);
      node := root;
      var i := 0;
      while i < |labels|
        invariant 0 <= i <= |labels|
        invariant Valid() && fresh(Repr - old(Repr))
        invariant path[..i] in tree.nodes && tree.nodes[path[..i]] == node
        invariant view == old(view)
      {
        LowerAllAt(labels, i);
        assert path[..i] + [path[i]] == path[..i + 1];
        node := Descend(node, path[..i], Lower(labels[i]));
        i := i + 1;
      }
      assert path[..i] == path;
    }

    method SetData(node: TrieNode, ghost path: Path, data: string)
      requires Valid() && path in tree.nodes && tree.nodes[path] == node
      modifies this, node
      ensures Valid() && Repr == old(Repr)
      ensures view == old(view)[path := data]
    {
      node.data := Some(data);
      view := view[path := data];
      forall p | p in tree.nodes
        ensures Stored(p, tree.nodes[p])
      {
        if p != path {
          assert old(Stored(p, tree.nodes[p]));
        }
      }
    }

    method SetChildData(node: TrieNode, ghost path: Path, key: string, data: string)
      requires Valid() && path in tree.nodes && tree.nodes[path] == node
      modifies Repr
      ensures Valid() && fresh(Repr - old(Repr))
      ensures view == old(view)[path + [key] := data]
    {
      var child := Descend(node, path, key);
      SetData(child, path + [key], data);
    }

    method InsertSuffix(domain: string, data: string)
      requires Valid()
      modifies Repr
      ensures Valid() && fresh(Repr - old(Repr))
      ensures view == old(view)[Labels(domain) := data]
    {
      var node := Walk(Reverse(Split(domain, '.')));
      SetData(node, Labels(domain), data);
    }

    /** An exact entry hangs below its domain under a marker label. */
    method InsertExact(domain: string, data: string)
      requires Valid()
      modifies Repr
      ensures Valid() && fresh(Repr - old(Repr))
      ensures view == old(view)[Labels(domain) + [EXACT] := data]
    {
      var node := Walk(Reverse(Split(domain, '.')));
      SetChildData(node, Labels(domain), EXACT, data);
    }

    method Lookup(domain: string) returns (r: Option<string>)
      requires Valid()
      ensures r == LongestMatch(view, Labels(domain))
    {
      r := Follow(Reverse(Split(domain, '.')));
    }

    /** Follows the labels while there are nodes, remembering the last data seen. */
    method Follow(labels: seq<string>) returns (r: Option<string>)
      requires Valid()
      ensures r == LongestMatch(view, LowerAll(labels))
    {
      hide LowerAll, Lower;
      ghost var path := LowerAll(labels);
      var node := root;
      r := None;
      var i := 0;
      while i < |labels|
        invariant 0 <= i <= |labels|
        invariant path[..i] in tree.nodes && tree.nodes[path[..i]] == node
        invariant r == LongestMatch(view, path[..i])
      {
        var key := Lower(labels[i]);
        LowerAllAt(labels, i);
        assert path[..i + 1][..i] == path[..i];
        if key !in node.children {
          NothingBeyond(path, i);
          return;
        }
        assert path[..i] + [path[i]] == path[..i + 1];
        assert key in tree.kids[path[..i]];
        node := node.children[key];
        if node.data.Some? {
          r := node.data;
        }
        i := i + 1;
      }
      assert path[..i] == path;
    }

    /** Where a child is missing, no longer prefix of the path stores data. */
    lemma NothingBeyond(path: Path, i: nat)
      requires Valid() && i < |path| && path[..i] in tree.nodes && path[i] !in tree.nodes[path[..i]].children
      ensures LongestMatch(view, path) == LongestMatch(view, path[..i])
    {
      LongestMatchSkips(view, path, i);
      forall j | i < j <= |path|
        ensures path[..j] !in view
      {
        assert path[..j][..i] == path[..i] && path[..j][i] == path[i];
      }
    }
  }

  lemma {:induction false} LongestMatchSkips(view: map<Path, string>, path: Path, i: nat)
    requires i <= |path|
    ensures (forall j :: i < j <= |path| ==> path[..j] !in view) ==>
              LongestMatch(view, path) == LongestMatch(view, path[..i])
  {
    if forall j :: i < j <= |path| ==> path[..j] !in view {
      if i == |path| {
        assert path[..i] == path;
      } else {
        var init := path[..|path| - 1];
        assert path[..|path|] == path;
        forall j | i < j <= |init|
          ensures init[..j] !in view
        {
          assert init[..j] == path[..j];
        }
        LongestMatchSkips(view, init, i);
        assert init[..i] == path[..i];
      }
    }
  }
}
