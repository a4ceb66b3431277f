/** The manifest builder: scopes accumulate in a mutable tree of nodes, which is finalized
    and serialized into bytes. */
module ManifestBuilder {
  import opened Words
  import opened ManifestFormat
  import opened ManifestReader
  import opened ManifestPayload
  import opened ManifestTree
  import opened ManifestWriter
  import opened Scopes
  import Ordering
  import BT = BucketTable

  /** A tree node. Its children are the nodes whose path is one fragment longer. */
  datatype Node = Node(normalizedFragment: Frag, hash: u32,
                       coneMask: Bits, coneValues: Bits, nodeMask: Bits, nodeValues: Bits,
                       conePolicy: Bits, nodePolicy: Bits)
  {
    function Accumulators(): Acc {
      Acc(coneMask, coneValues, nodeMask, nodeValues)
    }
  }

  function NewNode(fragment: Frag, hash: u32): Node {
    Node(fragment, hash, MaskNothing, {}, MaskNothing, {}, {}, {})
  }

  /** The end of the separators, or of the name, that starts at `i`. */
  function SkipWhile(path: Frag, i: nat, sep: bool): (e: nat)
    requires i <= |path|
    ensures i <= e <= |path|
    decreases |path| - i
  {
    if i < |path| && IsSep(path[i]) == sep then SkipWhile(path, i + 1, sep) else i
  }

  /** The names in `path` from index `i` on: runs of separators only divide them. */
  function Split(path: Frag, i: nat): (fs: seq<Frag>)
    requires i <= |path|
    ensures forall f <- fs :: f != []
    decreases |path| - i
  {
    var start := SkipWhile(path, i, true);
    var end := SkipWhile(path, start, false);
    if end == start then [] else [path[start..end]] + Split(path, end)
  }

  function Normalize(n: Norm, fs: seq<Frag>): (p: NodePath)
    ensures |p| == |fs| && forall i :: 0 <= i < |p| ==> p[i] == n.Fragment(fs[i])
  {
    seq(|fs|, i requires 0 <= i < |fs| => n.Fragment(fs[i]))
  }

  /** `ApplyConeFileAccess` and `ApplyNodeFileAccess` on one node. */
  function Applied(d: Node, exact: bool, mask: Bits, values: Bits): Node {
    if exact then d.(nodeMask := mask * d.nodeMask, nodeValues := values + d.nodeValues)
    else d.(coneMask := mask * d.coneMask, coneValues := values + d.coneValues)
  }

  /** The accumulators of the whole tree, by path. */
  function TrieIn(tree: map<NodePath, Node>): (t: Trie)
    ensures t.Keys == tree.Keys
  {
    map p | p in tree :: tree[p].Accumulators()
  }

  ghost predicate Labelled(norm: Norm, p: NodePath, d: Node) {
    if p == [] then d.normalizedFragment == [] && d.hash == 0
    else d.normalizedFragment == p[|p| - 1] && d.hash == norm.hash(p[|p| - 1])
  }

  ghost predicate GoodTree(norm: Norm, tree: map<NodePath, Node>) {
    Good(TrieIn(tree)) && forall p <- tree :: Labelled(norm, p, tree[p])
  }

  lemma GoodUpdate(norm: Norm, tree: map<NodePath, Node>, p: NodePath, d: Node)
    requires GoodTree(norm, tree) && p in tree
    requires d.normalizedFragment == tree[p].normalizedFragment && d.hash == tree[p].hash
    ensures GoodTree(norm, tree[p := d])
    ensures TrieIn(tree[p := d]) == TrieIn(tree)[p := d.Accumulators()]
  {
    hide GoodPath;
  }

  lemma GoodInsert(norm: Norm, tree: map<NodePath, Node>, p: NodePath, f: Frag)
    requires GoodTree(norm, tree) && p in tree && f != [] && NoNul(f)
    ensures GoodTree(norm, tree[p + [f] := NewNode(f, norm.hash(f))])
    ensures TrieIn(tree[p + [f] := NewNode(f, norm.hash(f))]) == TrieIn(tree)[p + [f] := Fresh]
  {
    hide NoNul;
    var q := p + [f];
    assert Parent(q) == p;
    assert GoodPath(q);
  }

  class ManifestBuilder {
    const norm: Norm
    const options: Options
    var tree: map<NodePath, Node>

    ghost predicate Valid()
      reads this
    {
      GoodTree(norm, tree)
    }

    ghost function Trie(): (t: Trie)
      reads this
    {
      TrieIn(tree)
    }

    constructor (norm: Norm, options: Options)
      ensures Valid() && Trie() == EmptyTrie
      ensures this.norm == norm && this.options == options
    {
      this.norm, this.options := norm, options;
      tree := map[[] := NewNode([], 0)];
    }

    /** Advance over separators, or over a name. */
    static method Skip(path: Frag, i: nat, sep: bool) returns (e: nat)
      requires i <= |path|
      ensures e == SkipWhile(path, i, sep)
    {
      e := i;
      while e < |path| && IsSep(path[e]) == sep
        invariant i <= e <= |path| && SkipWhile(path, e, sep) == SkipWhile(path, i, sep)
      {
        e := e + 1;
      }
    }

    /** Walk or create the nodes along a canonical path. */
    method AddPathFragments(path: Frag) returns (leaf: NodePath)
      requires GoodTree(norm, tree) && KeepsNoNul(norm) && NoNul(path)
      modifies this
      ensures GoodTree(norm, tree) && leaf in tree
      ensures leaf == Normalize(norm, Split(path, 0))
      ensures TrieIn(tree) == Grow(TrieIn(old(tree)), leaf)
    {
      hide *;
      leaf := [];
      GrowNothing(norm, tree);
      var i := 0;
      ghost var done: seq<Frag>, before := [], tree;
      NormalizeStep(norm, [], []);
      OneMore([], [], Split(path, 0));
      while i < |path|
        invariant i <= |path| && GoodTree(norm, tree) && leaf in tree
        invariant done + Split(path, i) == Split(path, 0) && leaf == Normalize(norm, done)
        invariant TrieIn(tree) == Grow(TrieIn(before), leaf)
      {
        var start := Skip(path, i, true);
        var end := Skip(path, start, false);
        SplitStep(path, i);
        if end == start {
          OneMore(done, [], []);
          return;
        }
        var normalized := norm.Fragment(path[start..end]);
        NormalizedNoNul(norm, path, start, end);
        GoodInsert(norm, tree, leaf, normalized);
        GrowStep(TrieIn(before), leaf, normalized);
        NormalizeStep(norm, done, path[start..end]);
        OneMore(done, path[start..end], Split(path, end));
        leaf := leaf + [normalized];
        if leaf !in tree {
          tree := tree[leaf := NewNode(normalized, norm.hash(normalized))];
        }
        done, i := done + [path[start..end]], end;
      }
      SplitStep(path, i);
      OneMore(done, [], []);
    }

    method ApplyAt(leaf: NodePath, exact: bool, mask: Bits, values: Bits)
      requires Valid() && leaf in tree
      modifies this
      ensures Valid() && leaf in old(Trie())
      ensures Trie() == old(Trie())[leaf := old(Trie())[leaf].Apply(exact, mask, values)]
    {
      hide GoodTree;
      GoodUpdate(norm, tree, leaf, Applied(tree[leaf], exact, mask, values));
      tree := tree[leaf := Applied(tree[leaf], exact, mask, values)];
    }

    method AddRootScope(mask: Bits, values: Bits)
      requires Valid()
      modifies this
      ensures Valid() && Trie() == Add(old(Trie()), Scope([], false, mask, values))
    {
      hide GoodTree, TrieIn, Grow;
      GrowNothing(norm, tree);
      ApplyAt([], false, mask, values);
    }

    method AddScope(path: Frag, mask: Bits, values: Bits)
      requires Valid() && KeepsNoNul(norm) && NoNul(path)
      modifies this
      ensures Valid() && Trie() == Add(old(Trie()), Scope(Normalize(norm, Split(path, 0)), false, mask, values))
    {
      hide GoodTree, TrieIn, Grow;
      var leaf := AddPathFragments(path);
      ApplyAt(leaf, false, mask, values);
    }

    method AddNodeScope(path: Frag, mask: Bits, values: Bits)
      requires Valid() && KeepsNoNul(norm) && NoNul(path)
      modifies this
      ensures Valid() && Trie() == Add(old(Trie()), Scope(Normalize(norm, Split(path, 0)), true, mask, values))
    {
      hide GoodTree, TrieIn, Grow;
      var leaf := AddPathFragments(path);
      ApplyAt(leaf, true, mask, values);
    }

    /** Push policies down the subtree at `p`. */
    method Finalize(p: NodePath, parentPolicy: Bits, ghost depth: nat)
      requires GoodTree(norm, tree) && Closed(TrieIn(tree)) && p in tree && Within(TrieIn(tree), depth)
      requires parentPolicy == if p == [] then {} else ConePolicy(TrieIn(tree), Parent(p))
      modifies this
      ensures tree == FinalizedBelow(old(tree), p)
      decreases depth - |p|
    {
      hide *;
      var d := tree[p];
      var cone := parentPolicy * d.coneMask + d.coneValues;
      ghost var before := tree;
      Computed(before, p, parentPolicy);
      tree := tree[p := d.(conePolicy := cone, nodePolicy := cone * d.nodeMask + d.nodeValues)];
      FinalizeStart(before, p, tree[p]);
      SomeKeeps(norm, before, p, {});
      var keys := Ordering.Sorted(ChildKeys(TrieIn(tree), p));
      ghost var done: set<Frag> := {};
      ElementsStep(keys, 0);
      for i := 0 to |keys|
        invariant tree == FinalizedSome(before, p, done) && done == Elements(keys[..i])
      {
        ReadyForChild(norm, before, p, done, keys[i], depth);
        Finalize(p + [keys[i]], cone, depth);
        FinalizeStep(before, p, done, keys[i]);
        ElementsStep(keys, i);
        done := done + {keys[i]};
      }
      ElementsStep(keys, |keys|);
      FinalizeEnd(norm, before, p, done);
    }

    /** Append the subtree at `p`: header, bucket table, fragment, children; then patch the
        table with the children's offsets. */
    method SerializeNode(p: NodePath, out: ByteVector, ghost depth: nat)
      requires GoodTree(norm, tree) && Closed(TrieIn(tree)) && p in tree && Within(TrieIn(tree), depth)
      requires FinalizedBelow(tree, p) == tree
      requires |out.data| % 4 == 0 && NodeLen(TreeOf(norm, TrieIn(tree), p, depth)) < 0x1_0000_0000
      modifies out
      ensures out.data == old(out.data) + NodeBytes(TreeOf(norm, TrieIn(tree), p, depth))
      decreases depth - |p|
    {
      hide *;
      ghost var r := TreeOf(norm, TrieIn(tree), p, depth);
      NodeFields(norm, tree, p, depth);
      var nodeStart := |out.data|;
      var keys := Ordering.Sorted(ChildKeys(TrieIn(tree), p));
      var bucketCount := BT.BucketCount(|keys|);
      var offsetsPos := nodeStart + 16;
      out.PutHead(tree[p].hash, WordOf(tree[p].conePolicy), WordOf(tree[p].nodePolicy), bucketCount, tree[p].normalizedFragment);
      ghost var before := old(out.data);
      HeadWritten(r, before);
      if bucketCount == 0 {
        return;
      }
      var offsets: seq<u32> := seq(bucketCount, _ => 0);
      EmptyTable(r);
      for i := 0 to |keys|
        invariant |out.data| % 4 == 0 && out.data == before + Unpatched(r, i)
        invariant offsets == WordsOf(r, BT.Fill(r.Homes(), i, r.Buckets())) && Fitting(r, BT.Fill(r.Homes(), i, r.Buckets()))
      {
        var q := p + [keys[i]];
        ChildReady(norm, tree, p, depth, i);
        TableStep(r, i);
        UnpatchedStep(r, i);
        Associate(before, Unpatched(r, i), NodeBytes(r.children[i]));
        var childOffset := Truncate(|out.data| - nodeStart);
        offsets := InsertOffset(r, offsets, tree[q].hash, childOffset, BT.Fill(r.Homes(), i, r.Buckets()), i);
        SerializeNode(q, out, depth);
      }
      TableLength(r, offsets);
      out.PatchTable(offsetsPos, offsets);
      Patched(r, before, before + Unpatched(r, |keys|));
    }

    /** Finalize and serialize the whole payload. */
    method Build() returns (payload: seq<byte>)
      requires Valid() && Closed(Trie()) && NodeLen(FinalTree(norm, Trie())) < 0x1_0000_0000
      modifies this
      ensures Valid() && Trie() == old(Trie()) && Closed(Trie())
      ensures payload == Prelude(options) + NodeBytes(FinalTree(norm, Trie()))
      ensures options.Fits() ==> |payload| >= 8 && ParsePrelude(payload) == UpToNuls(options)
    {
      hide GoodTree, TrieIn, FinalizedBelow, NodeBytes, NodeLen, TreeOf, Closed, Within, Prelude, ParsePrelude, UpToNuls, Options.Fits;
      ghost var depth := Depth(Trie());
      GrowNothing(norm, tree);
      Finalize([], {}, depth);
      BelowKeeps(norm, old(tree), []);
      var out := new ByteVector();
      out.PutPrelude(options);
      PreludeAligned(options);
      SerializeNode([], out, depth);
      payload := out.data;
      if options.Fits() {
        PreludeReads(options, NodeBytes(FinalTree(norm, Trie())));
      }
    }
  }

  /** What the node at `p` has when its children `0..i` are written and the table is not. */
  ghost function Unpatched(r: Tree, i: nat): seq<byte>
    requires i <= |r.children|
  {
    HeadBytes(r.hash, r.cone, r.node, Zeros(4 * r.Buckets()), r.frag) + KidsBytes(r.children[..i])
  }

  lemma NodeFields(norm: Norm, tree: map<NodePath, Node>, p: NodePath, depth: nat)
    requires GoodTree(norm, tree) && Closed(TrieIn(tree)) && p in tree && Within(TrieIn(tree), depth)
    requires FinalizedBelow(tree, p) == tree
    ensures var r := TreeOf(norm, TrieIn(tree), p, depth);
            && r.hash == tree[p].hash && r.frag == tree[p].normalizedFragment
            && r.cone == WordOf(tree[p].conePolicy) && r.node == WordOf(tree[p].nodePolicy)
            && |r.children| == |Ordering.Sorted(ChildKeys(TrieIn(tree), p))|
            && r.Buckets() == BT.BucketCount(|r.children|)
  {
    hide WordOf, TrieIn, Good, Closed, Within, ConePolicy, NodePolicy, BT.BucketCount;
    assert tree[p] == FinalizedBelow(tree, p)[p] == WithPolicies(tree, p);
    assert Labelled(norm, p, tree[p]);
  }

  lemma HeadWritten(r: Tree, before: seq<byte>)
    requires |before| % 4 == 0
    ensures var h := HeadBytes(r.hash, r.cone, r.node, Zeros(4 * r.Buckets()), r.frag);
            && before + h == before + Unpatched(r, 0) && |before + h| % 4 == 0
            && (r.Buckets() == 0 ==> h == NodeBytes(r))
    ensures r.Buckets() == 0 <==> r.children == []
  {
    hide U32Bytes, FragBytes, Truncate, FragLen, HeadBytes, NodeBytes;
    assert r.children[..0] == [];
    assert KidsBytes([]) == [];
    var h := HeadBytes(r.hash, r.cone, r.node, Zeros(4 * r.Buckets()), r.frag);
    assert h + [] == h;
    HeadLength(r);
    if r.Buckets() == 0 {
      LeafBytes(r);
    }
  }

  lemma HeadLength(r: Tree)
    ensures |HeadBytes(r.hash, r.cone, r.node, Zeros(4 * r.Buckets()), r.frag)| % 4 == 0
  {
    hide U32Bytes, FragBytes, Truncate, HeadBytes;
  }

  lemma LeafBytes(r: Tree)
    requires r.Buckets() == 0
    ensures r.children == [] && HeadBytes(r.hash, r.cone, r.node, Zeros(4 * r.Buckets()), r.frag) == NodeBytes(r)
  {
    hide U32Bytes, FragBytes, Truncate, FragLen;
    assert r.TableWords() == [] && Zeros(0) == [];
    assert KidsBytes(r.children) == [] && r.Head() + [] == r.Head();
  }

  lemma EmptyTable(r: Tree)
    ensures WordsOf(r, BT.Fill(r.Homes(), 0, r.Buckets())) == seq(r.Buckets(), _ => 0)
    ensures NodeLen(r) < 0x1_0000_0000 ==> Fitting(r, BT.Fill(r.Homes(), 0, r.Buckets()))
  {
    hide NodeLen;
    forall c | 0 <= c < |r.children| ensures r.Offset(c) < NodeLen(r) {
      ChildRange(r, c);
    }
  }

  lemma ChildReady(norm: Norm, tree: map<NodePath, Node>, p: NodePath, depth: nat, i: nat)
    requires GoodTree(norm, tree) && Closed(TrieIn(tree)) && p in tree && Within(TrieIn(tree), depth)
    requires FinalizedBelow(tree, p) == tree
    requires NodeLen(TreeOf(norm, TrieIn(tree), p, depth)) < 0x1_0000_0000
    requires i < |TreeOf(norm, TrieIn(tree), p, depth).children|
    ensures var r, ks := TreeOf(norm, TrieIn(tree), p, depth), Ordering.Sorted(ChildKeys(TrieIn(tree), p));
            && |ks| == |r.children|
            && var q := p + [ks[i]];
            && q in tree && FinalizedBelow(tree, q) == tree && |p| < depth
            && r.children[i] == TreeOf(norm, TrieIn(tree), q, depth)
            && tree[q].hash == r.children[i].hash
            && NodeLen(r.children[i]) < 0x1_0000_0000
  {
    var t := TrieIn(tree);
    var q := p + [Ordering.Sorted(ChildKeys(t, p))[i]];
    hide NodeLen, WordOf, Good, Closed, Within, FinalizedBelow, TreeOf, ChildKeys, TrieIn;
    TreeChild(norm, t, p, depth, i);
    ChildRange(TreeOf(norm, t, p, depth), i);
    StillFinal(tree, p, q);
    assert Labelled(norm, q, tree[q]);
    DeepEnough(t, q, depth);
  }

  lemma DeepEnough(t: Trie, q: NodePath, depth: nat)
    requires Within(t, depth) && q in t
    ensures |q| <= depth
  {}

  lemma StillFinal(tree: map<NodePath, Node>, p: NodePath, q: NodePath)
    requires Closed(TrieIn(tree)) && FinalizedBelow(tree, p) == tree && p <= q
    ensures FinalizedBelow(tree, q) == tree
  {
    hide WithPolicies, Closed;
    forall x <- tree | q <= x ensures tree[x] == WithPolicies(tree, x) {
      assert p <= x && FinalizedBelow(tree, p)[x] == tree[x];
    }
  }

  lemma TableStep(r: Tree, i: nat)
    requires i < |r.children|
    ensures r.Buckets() > 0 && BT.Used(BT.Fill(r.Homes(), i, r.Buckets())) == i < r.Buckets()
    ensures BT.Fill(r.Homes(), i + 1, r.Buckets())
            == BT.Place(BT.Fill(r.Homes(), i, r.Buckets()), BT.Home(r.children[i].hash, r.Buckets()), i)
  {
    hide BT.Home, BT.Place;
    BT.FillHolds(r.Homes(), i, r.Buckets());
  }

  lemma UnpatchedStep(r: Tree, i: nat)
    requires i < |r.children|
    ensures |Unpatched(r, i)| == r.Offset(i)
    ensures Unpatched(r, i + 1) == Unpatched(r, i) + NodeBytes(r.children[i])
    ensures |NodeBytes(r.children[i])| % 4 == 0
  {
    hide U32Bytes, FragBytes, Truncate, NodeBytes, NodeLen;
    var cs := r.children;
    assert cs[..i + 1] == cs[..i] + [cs[i]];
    KidsAppend(cs[..i], [cs[i]]);
    assert KidsBytes([cs[i]]) == NodeBytes(cs[i]);
  }

  lemma Associate(a: seq<byte>, b: seq<byte>, c: seq<byte>)
    ensures a + b + c == a + (b + c)
    ensures |a + b| % 4 == 0 && |c| % 4 == 0 ==> |a + (b + c)| % 4 == 0
  {}

  lemma TableLength(r: Tree, offsets: seq<u32>)
    requires offsets == WordsOf(r, BT.Fill(r.Homes(), |r.children|, r.Buckets()))
    ensures |offsets| == r.Buckets() && |Unpatched(r, |r.children|)| >= 16 + 4 * r.Buckets()
    ensures offsets == r.TableWords()
  {
    hide U32Bytes, FragBytes, Truncate, Tree.SlotWord;
  }

  lemma Patched(r: Tree, before: seq<byte>, data: seq<byte>)
    requires data == before + Unpatched(r, |r.children|)
    ensures |before| + 16 + 4 * r.Buckets() <= |data|
    ensures data[..|before| + 16] + WordsBytes(r.TableWords()) + data[|before| + 16 + 4 * r.Buckets()..] == before + NodeBytes(r)
  {
    hide U32Bytes, FragBytes, Truncate, Tree.TableWords, WordsBytes, Tree.Buckets, KidsBytes, Zeros;
    assert r.children[..|r.children|] == r.children;
  }

  lemma BelowKeeps(norm: Norm, tree: map<NodePath, Node>, p: NodePath)
    requires GoodTree(norm, tree) && Closed(TrieIn(tree))
    ensures var t := FinalizedBelow(tree, p);
            t.Keys == tree.Keys && TrieIn(t) == TrieIn(tree) && GoodTree(norm, t) && FinalizedBelow(t, p) == t
  {
    hide Good, Closed, ConePolicy, NodePolicy;
    assert TrieIn(FinalizedBelow(tree, p)) == TrieIn(tree);
  }

  function Elements(ks: seq<Frag>): set<Frag> {
    set k | k in ks
  }

  lemma ElementsStep(ks: seq<Frag>, i: nat)
    requires i <= |ks|
    ensures i == 0 ==> Elements(ks[..i]) == {}
    ensures i == |ks| ==> ks[..i] == ks && forall k :: k in Elements(ks) <==> k in ks
    ensures i < |ks| ==> Elements(ks[..i + 1]) == Elements(ks[..i]) + {ks[i]}
  {}

  /** A node with the policies its accumulators and ancestors call for. */
  ghost function WithPolicies(tree: map<NodePath, Node>, q: NodePath): Node
    requires q in tree && Closed(TrieIn(tree))
  {
    tree[q].(conePolicy := ConePolicy(TrieIn(tree), q), nodePolicy := NodePolicy(TrieIn(tree), q))
  }

  ghost function FinalizedBelow(tree: map<NodePath, Node>, p: NodePath): map<NodePath, Node>
    requires Closed(TrieIn(tree))
  {
    map q | q in tree :: if p <= q then WithPolicies(tree, q) else tree[q]
  }

  /** Node `p` and the subtrees of some of its children finalized. */
  ghost function FinalizedSome(tree: map<NodePath, Node>, p: NodePath, done: set<Frag>): map<NodePath, Node>
    requires Closed(TrieIn(tree))
  {
    map q | q in tree :: if q == p || (p < q && q[|p|] in done) then WithPolicies(tree, q) else tree[q]
  }

  lemma Computed(tree: map<NodePath, Node>, p: NodePath, parentPolicy: Bits)
    requires Closed(TrieIn(tree)) && p in tree
    requires parentPolicy == if p == [] then {} else ConePolicy(TrieIn(tree), Parent(p))
    ensures var d := tree[p];
            var cone := parentPolicy * d.coneMask + d.coneValues;
            && ConePolicy(TrieIn(tree), p) == cone
            && WithPolicies(tree, p) == d.(conePolicy := cone, nodePolicy := cone * d.nodeMask + d.nodeValues)
  {}

  lemma FinalizeStart(tree: map<NodePath, Node>, p: NodePath, d: Node)
    requires Closed(TrieIn(tree)) && p in tree && d == WithPolicies(tree, p)
    ensures tree[p := d] == FinalizedSome(tree, p, {})
  {}

  lemma SomeKeeps(norm: Norm, tree: map<NodePath, Node>, p: NodePath, done: set<Frag>)
    requires GoodTree(norm, tree) && Closed(TrieIn(tree))
    ensures var t := FinalizedSome(tree, p, done);
            t.Keys == tree.Keys && TrieIn(t) == TrieIn(tree) && GoodTree(norm, t)
  {
    hide Good, Closed, ConePolicy, NodePolicy;
    assert TrieIn(FinalizedSome(tree, p, done)) == TrieIn(tree);
  }

  lemma ReadyForChild(norm: Norm, tree: map<NodePath, Node>, p: NodePath, done: set<Frag>, k: Frag, depth: nat)
    requires GoodTree(norm, tree) && Closed(TrieIn(tree)) && Within(TrieIn(tree), depth)
    requires p in tree && k in ChildKeys(TrieIn(tree), p)
    ensures var t, q := FinalizedSome(tree, p, done), p + [k];
            && GoodTree(norm, t) && TrieIn(t) == TrieIn(tree)
            && q in t && q != [] && Parent(q) == p && |p| < depth
  {
    hide GoodTree, Closed, FinalizedSome;
    SomeKeeps(norm, tree, p, done);
  }

  lemma FinalizeStep(tree: map<NodePath, Node>, p: NodePath, done: set<Frag>, k: Frag)
    requires Closed(TrieIn(tree)) && TrieIn(FinalizedSome(tree, p, done)) == TrieIn(tree)
    ensures FinalizedBelow(FinalizedSome(tree, p, done), p + [k]) == FinalizedSome(tree, p, done + {k})
  {
    hide Closed, TrieIn, ConePolicy, NodePolicy;
    forall q: NodePath ensures p + [k] <= q <==> p < q && q[|p|] == k {}
  }

  lemma FinalizeEnd(norm: Norm, tree: map<NodePath, Node>, p: NodePath, done: set<Frag>)
    requires Closed(TrieIn(tree)) && p in tree && done == ChildKeys(TrieIn(tree), p)
    ensures FinalizedSome(tree, p, done) == FinalizedBelow(tree, p)
  {
    hide WithPolicies, Closed;
    forall q <- tree | p < q ensures q[|p|] in done {
      ChildOnPath(TrieIn(tree), p, q);
    }
  }

  lemma ChildOnPath(t: Trie, p: NodePath, q: NodePath)
    requires Closed(t) && p in t && q in t && p <= q && p != q
    ensures q[|p|] in ChildKeys(t, p)
  {
    assert q[..|p| + 1] == p + [q[|p|]];
    PrefixInTrie(t, q[..|p| + 1], q);
  }

  lemma SplitStep(path: Frag, i: nat)
    requires i <= |path|
    ensures var start := SkipWhile(path, i, true);
            var end := SkipWhile(path, start, false);
            && Split(path, i) == (if end == start then [] else [path[start..end]] + Split(path, end))
            && (end > start ==> end > i)
            && (i == |path| ==> end == start)
  {}

  lemma OneMore(done: seq<Frag>, f: Frag, rest: seq<Frag>)
    ensures done + ([f] + rest) == (done + [f]) + rest
    ensures done + [] == done && [] + rest == rest
  {}

  lemma NormalizeStep(norm: Norm, fs: seq<Frag>, f: Frag)
    ensures Normalize(norm, []) == []
    ensures Normalize(norm, fs + [f]) == Normalize(norm, fs) + [norm.Fragment(f)]
  {}

  lemma NormalizedNoNul(norm: Norm, path: Frag, start: nat, end: nat)
    requires KeepsNoNul(norm) && NoNul(path) && start < end <= |path|
    ensures NoNul(norm.Fragment(path[start..end])) && norm.Fragment(path[start..end]) != []
  {}

  lemma GrowStep(t: Trie, p: NodePath, f: Frag)
    ensures Grow(t, p + [f]) == if p + [f] in Grow(t, p) then Grow(t, p) else Grow(t, p)[p + [f] := Fresh]
  {
    var q := p + [f];
    assert Prefixes(q) == Prefixes(p) + {q} by {
      forall r | r in Prefixes(q) ensures r in Prefixes(p) + {q} {
        if r != q { assert r == q[..|r|] == p[..|r|]; }
      }
      forall r | r in Prefixes(p) ensures r in Prefixes(q) {
        assert r == p[..|r|] == q[..|r|];
      }
    }
  }

  lemma GrowNothing(norm: Norm, tree: map<NodePath, Node>)
    requires GoodTree(norm, tree)
    ensures [] in tree && Grow(TrieIn(tree), []) == TrieIn(tree)
  {
    assert Prefixes([]) == {[]};
  }
}
