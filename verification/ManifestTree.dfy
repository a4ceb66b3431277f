/** From the path tree to the finalized tree that is serialized, and back to policies. */
module ManifestTree {
  import opened Words
  import opened ManifestFormat
  import opened ManifestReader
  import opened Scopes
  import Ordering

  /** Fragments as the builder makes them: non-empty, NUL-free. */
  ghost predicate GoodPath(p: NodePath) {
    forall f <- p :: f != [] && NoNul(f)
  }

  ghost predicate Good(t: Trie) {
    Closed(t) && forall p <- t :: GoodPath(p)
  }

  ghost predicate Within(t: Trie, depth: nat) {
    forall p <- t :: |p| <= depth
  }

  /** The length of the longest path with a node. */
  ghost function Depth(t: Trie): (d: nat)
    ensures Within(t, d)
  {
    LongestOf(t.Keys)
  }

  ghost function LongestOf(s: set<NodePath>): (d: nat)
    ensures forall p <- s :: |p| <= d
  {
    if s == {} then 0 else
      var p :| p in s;
      var d := LongestOf(s - {p});
      if |p| > d then |p| else d
  }

  /** The tree that is serialized. */
  ghost function FinalTree(n: Norm, t: Trie): Tree
    requires Closed(t)
  {
    TreeOf(n, t, [], Depth(t))
  }

  ghost function TreeFor(n: Norm, scopes: seq<Scope>): Tree {
    TrieClosed(scopes);
    FinalTree(n, TrieOf(scopes))
  }

  function ChildKeys(t: Trie, p: NodePath): (ks: set<Frag>)
    ensures forall f :: f in ks <==> p + [f] in t
  {
    var ks := set q | q in t && |q| == |p| + 1 && q[..|p|] == p :: q[|p|];
    assert forall f :: p + [f] in t ==> (p + [f])[..|p|] == p && (p + [f])[|p|] == f;
    assert forall q <- t :: |q| == |p| + 1 && q[..|p|] == p ==> q == p + [q[|p|]];
    ks
  }

  /** The finalized tree below the node at `p`: its children in key order. */
  ghost function TreeOf(n: Norm, t: Trie, p: NodePath, depth: nat): (r: Tree)
    requires Closed(t) && Within(t, depth) && p in t
    decreases depth - |p|
  {
    var ks := Ordering.Sorted(ChildKeys(t, p));
    var frag := if p == [] then [] else p[|p| - 1];
    Tree(if p == [] then 0 else n.hash(frag), WordOf(ConePolicy(t, p)), WordOf(NodePolicy(t, p)), frag,
         seq(|ks|, i requires 0 <= i < |ks| =>
           assert ks[i] in ChildKeys(t, p);
           TreeOf(n, t, p + [ks[i]], depth)))
  }

  lemma TreeChild(n: Norm, t: Trie, p: NodePath, depth: nat, i: nat)
    requires Closed(t) && Within(t, depth) && p in t
    requires i < |TreeOf(n, t, p, depth).children|
    ensures var ks := Ordering.Sorted(ChildKeys(t, p));
            && |ks| == |TreeOf(n, t, p, depth).children|
            && p + [ks[i]] in t
            && TreeOf(n, t, p, depth).children[i] == TreeOf(n, t, p + [ks[i]], depth)
            && TreeOf(n, t, p, depth).children[i].frag == ks[i]
            && TreeOf(n, t, p, depth).children[i].hash == n.hash(ks[i])
  {
    var ks := Ordering.Sorted(ChildKeys(t, p));
    assert ks[i] in ChildKeys(t, p);
  }

  lemma {:induction false} TreeWellMade(n: Norm, t: Trie, p: NodePath, depth: nat)
    requires Good(t) && Within(t, depth) && p in t
    ensures WellMade(n, TreeOf(n, t, p, depth))
    decreases depth - |p|
  {
    var r, ks := TreeOf(n, t, p, depth), Ordering.Sorted(ChildKeys(t, p));
    forall i | 0 <= i < |r.children|
      ensures r.children[i].frag == ks[i] && r.children[i].frag != [] && NoNul(r.children[i].frag)
      ensures r.children[i].hash == n.hash(r.children[i].frag)
      ensures WellMade(n, r.children[i])
    {
      TreeChild(n, t, p, depth, i);
      var q := p + [ks[i]];
      assert q[|p|] in q;
      TreeWellMade(n, t, q, depth);
    }
  }

  lemma {:induction false} PrefixInTrie(t: Trie, p: NodePath, q: NodePath)
    requires Closed(t) && q in t && p <= q
    ensures p in t
    decreases |q|
  {
    if p != q {
      PrefixInTrie(t, p, Parent(q));
    } else {
      assert p == q;
    }
  }

  lemma {:induction false} NearestBelow(t: Trie, p: NodePath, q: NodePath)
    requires Closed(t) && p in t && p <= q
    requires |p| < |q| ==> q[..|p| + 1] !in t
    ensures NearestCone(t, q) == ConePolicy(t, p)
    decreases |q|
  {
    if |p| < |q| {
      if q in t {
        PrefixInTrie(t, q[..|p| + 1], q);
      }
      assert |p| < |Parent(q)| ==> Parent(q)[..|p| + 1] == q[..|p| + 1];
      NearestBelow(t, p, Parent(q));
    } else {
      assert p == q;
    }
  }

  lemma RecordOf(n: Norm, t: Trie, p: NodePath, depth: nat)
    requires Closed(t) && Within(t, depth) && p in t
    ensures var r := TreeOf(n, t, p, depth);
            r.cone == WordOf(ConePolicy(t, p)) && r.node == WordOf(NodePolicy(t, p)) && |r.children| == |ChildKeys(t, p)|
  {
    hide WordOf, ConePolicy, NodePolicy, Closed, Within;
  }

  /** A child is found exactly when the tree has its node. */
  lemma ChildFound(n: Norm, t: Trie, p: NodePath, depth: nat, f: Frag)
    requires Closed(t) && Within(t, depth) && p in t
    ensures var r := TreeOf(n, t, p, depth);
            var i := ChildIndex(r.children, f);
            && (i < |r.children| <==> p + [f] in t)
            && (i < |r.children| ==> r.children[i] == TreeOf(n, t, p + [f], depth))
  {
    hide Closed, Within, TreeOf;
    var r, ks := TreeOf(n, t, p, depth), Ordering.Sorted(ChildKeys(t, p));
    var i := ChildIndex(r.children, f);
    RecordOf(n, t, p, depth);
    if i < |r.children| {
      TreeChild(n, t, p, depth, i);
    } else if p + [f] in t {
      assert f in ChildKeys(t, p);
      var j :| 0 <= j < |ks| && ks[j] == f;
      TreeChild(n, t, p, depth, j);
    }
  }

  /** Walking the finalized tree finds the node policy of a path that has a node, and
      otherwise the cone policy of its nearest ancestor with one. */
  lemma {:induction false} WalkAgrees(n: Norm, t: Trie, p: NodePath, depth: nat, rest: NodePath)
    requires Closed(t) && Within(t, depth) && p in t
    ensures Walk(TreeOf(n, t, p, depth), rest)
            == if p + rest in t then Policy(WordOf(NodePolicy(t, p + rest)), true)
               else Policy(WordOf(NearestCone(t, p + rest)), false)
    decreases |rest|
  {
    hide WordOf, BitsOf, TreeOf, ChildIndex, Closed, Within, NodePolicy, NearestCone, ConePolicy;
    var r := TreeOf(n, t, p, depth);
    RecordOf(n, t, p, depth);
    if rest == [] {
      assert p + rest == p;
    } else {
      var i := ChildIndex(r.children, rest[0]);
      var q := p + [rest[0]];
      assert q + rest[1..] == p + rest;
      ChildFound(n, t, p, depth, rest[0]);
      if i < |r.children| {
        WalkAgrees(n, t, q, depth, rest[1..]);
      } else {
        assert (p + rest)[..|p| + 1] == q;
        NearestBelow(t, p, p + rest);
        if p + rest in t {
          PrefixInTrie(t, q, p + rest);
        }
      }
    }
  }
}
