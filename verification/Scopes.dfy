/** Scopes, the policy they give each path, and the path tree that computes it. */
module Scopes {
  import opened Words
  import opened ManifestFormat
  import opened Ordering
  import Reader = ManifestReader

  /** A path as its normalized fragments. */
  type NodePath = seq<Frag>

  const MaskNothing: Bits := set i: nat | 0 <= i < 16

  /** One call: a cone scope applies to the path and everything below it, a node scope to the
      exact path. `AddRootScope` is a cone scope at the empty path. */
  datatype Scope = Scope(path: NodePath, exact: bool, mask: Bits, values: Bits)

  function Parent(p: NodePath): NodePath
    requires p != []
  {
    p[..|p| - 1]
  }

  // ---- The policy of a path, straight from the list of scopes ----

  /** The tree has a node for `p`: the root, and every prefix of a scoped path. */
  predicate Scoped(scopes: seq<Scope>, p: NodePath) {
    p == [] || exists s <- scopes :: p <= s.path
  }

  /** The AND of the masks given at exactly `p`. */
  function MaskAt(scopes: seq<Scope>, p: NodePath, exact: bool): (m: Bits)
    ensures forall i: nat :: i in m <==> i < 16 && forall s <- scopes :: s.path == p && s.exact == exact ==> i in s.mask
  {
    if scopes == [] then
      MaskNothing
    else
      var m, s := MaskAt(scopes[..|scopes| - 1], p, exact), scopes[|scopes| - 1];
      assert scopes == scopes[..|scopes| - 1] + [s];
      if s.path == p && s.exact == exact then s.mask * m else m
  }

  /** The OR of the values given at exactly `p`. */
  function ValuesAt(scopes: seq<Scope>, p: NodePath, exact: bool): (v: Bits)
    ensures forall i: nat :: i in v <==> exists s <- scopes :: s.path == p && s.exact == exact && i in s.values
  {
    if scopes == [] then {}
    else
      var v, s := ValuesAt(scopes[..|scopes| - 1], p, exact), scopes[|scopes| - 1];
      assert scopes == scopes[..|scopes| - 1] + [s];
      if s.path == p && s.exact == exact then s.values + v else v
  }

  /** The cone policy of the deepest node at or above `p`: the fold of
      `(acc & mask) | values` along the nodes that are prefixes of `p`. */
  function ConeOf(scopes: seq<Scope>, p: NodePath): (c: Bits)
    decreases |p|
  {
    var above := if p == [] then {} else ConeOf(scopes, Parent(p));
    if Scoped(scopes, p) then above * MaskAt(scopes, p, false) + ValuesAt(scopes, p, false) else above
  }

  /** The policy enforced for `p`: its node policy if it has a node, else the nearest
      ancestor's cone policy. */
  function Effective(scopes: seq<Scope>, p: NodePath): (c: Bits) {
    if Scoped(scopes, p) then ConeOf(scopes, p) * MaskAt(scopes, p, true) + ValuesAt(scopes, p, true)
    else ConeOf(scopes, p)
  }

  // ---- The tree of accumulators ----

  datatype Acc = Acc(coneMask: Bits, coneValues: Bits, nodeMask: Bits, nodeValues: Bits)
  {
    function Apply(exact: bool, mask: Bits, values: Bits): Acc {
      if exact then this.(nodeMask := mask * nodeMask, nodeValues := values + nodeValues)
      else this.(coneMask := mask * coneMask, coneValues := values + coneValues)
    }
  }

  const Fresh := Acc(MaskNothing, {}, MaskNothing, {})

  /** The path tree, as a map from node paths to accumulators. */
  type Trie = map<NodePath, Acc>

  const EmptyTrie: Trie := map[[] := Fresh]

  ghost predicate Closed(t: Trie) {
    [] in t && forall p {:trigger Parent(p)} :: p in t && p != [] ==> Parent(p) in t
  }

  function Prefixes(p: NodePath): (s: set<NodePath>)
    ensures forall q :: q in s <==> q <= p
  {
    var s := set i | 0 <= i <= |p| :: p[..i];
    assert forall q :: q <= p ==> q == p[..|q|];
    s
  }

  /** Make sure every prefix of `p` has a node. */
  function Grow(t: Trie, p: NodePath): Trie {
    map q | q in t.Keys + Prefixes(p) :: if q in t then t[q] else Fresh
  }

  function Add(t: Trie, s: Scope): Trie {
    var g := Grow(t, s.path);
    assert s.path in g;
    g[s.path := g[s.path].Apply(s.exact, s.mask, s.values)]
  }

  function TrieOf(scopes: seq<Scope>): Trie {
    if scopes == [] then EmptyTrie else Add(TrieOf(scopes[..|scopes| - 1]), scopes[|scopes| - 1])
  }

  /** The accumulators at a node are the ANDs and ORs over the scopes at exactly its path. */
  lemma {:induction false} TrieAccumulates(scopes: seq<Scope>)
    ensures forall p :: p in TrieOf(scopes) <==> Scoped(scopes, p)
    ensures forall p <- TrieOf(scopes) ::
              TrieOf(scopes)[p] == AccAt(scopes, p)
  {
    if scopes != [] {
      var front, s := scopes[..|scopes| - 1], scopes[|scopes| - 1];
      hide AccAt, Scoped, TrieOf;
      TrieAccumulates(front);
      assert TrieOf(scopes) == Add(TrieOf(front), s) by { TrieUnfold(scopes); }
      forall p ensures p in TrieOf(scopes) <==> Scoped(scopes, p) {
        AddsAt(scopes, p);
      }
      forall p <- TrieOf(scopes) ensures TrieOf(scopes)[p] == AccAt(scopes, p) {
        AddsAt(scopes, p);
      }
    } else {
      NothingAt();
    }
  }

  function AccAt(scopes: seq<Scope>, p: NodePath): Acc {
    Acc(MaskAt(scopes, p, false), ValuesAt(scopes, p, false), MaskAt(scopes, p, true), ValuesAt(scopes, p, true))
  }

  lemma NothingAt()
    ensures forall p :: p in TrieOf([]) <==> Scoped([], p)
    ensures forall p <- TrieOf([]) :: TrieOf([])[p] == AccAt([], p)
  {}

  lemma TrieUnfold(scopes: seq<Scope>)
    requires scopes != []
    ensures TrieOf(scopes) == Add(TrieOf(scopes[..|scopes| - 1]), scopes[|scopes| - 1])
  {
    hide Add;
  }

  /** What the last scope adds at one node. */
  lemma AddsAt(scopes: seq<Scope>, p: NodePath)
    requires scopes != []
    ensures var front, s := scopes[..|scopes| - 1], scopes[|scopes| - 1];
            && (Scoped(scopes, p) <==> Scoped(front, p) || p <= s.path)
            && (!Scoped(front, p) ==> AccAt(front, p) == Fresh)
            && AccAt(scopes, p) == if p == s.path then AccAt(front, p).Apply(s.exact, s.mask, s.values) else AccAt(front, p)
  {
    var front, s := scopes[..|scopes| - 1], scopes[|scopes| - 1];
    assert scopes == front + [s];
    if !Scoped(front, p) {
      assert forall x <- front :: x.path != p;
      assert MaskAt(front, p, false) == MaskAt(front, p, true) == MaskNothing;
      assert ValuesAt(front, p, false) == ValuesAt(front, p, true) == {};
    }
  }

  lemma TrieClosed(scopes: seq<Scope>)
    ensures Closed(TrieOf(scopes))
  {
    TrieAccumulates(scopes);
    forall p | p != [] && Scoped(scopes, p) ensures Scoped(scopes, Parent(p)) {
      var s :| s in scopes && p <= s.path;
      assert Parent(p) <= s.path;
    }
  }

  /** Only which scopes were added matters: not their order, nor how often. */
  lemma OrderIrrelevant(xs: seq<Scope>, ys: seq<Scope>)
    requires forall s :: s in xs <==> s in ys
    ensures TrieOf(xs) == TrieOf(ys)
  {
    TrieAccumulates(xs);
    TrieAccumulates(ys);
    forall p ensures Scoped(xs, p) == Scoped(ys, p) {}
    forall p, e ensures MaskAt(xs, p, e) == MaskAt(ys, p, e) && ValuesAt(xs, p, e) == ValuesAt(ys, p, e) {}
  }

  // ---- Policies pushed down the tree ----

  ghost function ConePolicy(t: Trie, p: NodePath): (c: Bits)
    requires Closed(t) && p in t
    decreases |p|
  {
    (if p == [] then {} else ConePolicy(t, Parent(p))) * t[p].coneMask + t[p].coneValues
  }

  ghost function NodePolicy(t: Trie, p: NodePath): (c: Bits)
    requires Closed(t) && p in t
  {
    ConePolicy(t, p) * t[p].nodeMask + t[p].nodeValues
  }

  ghost function NearestCone(t: Trie, p: NodePath): (c: Bits)
    requires Closed(t)
    decreases |p|
  {
    if p in t then ConePolicy(t, p) else NearestCone(t, Parent(p))
  }

  /** The tree's policies are the longest-prefix policies of the scope list. */
  lemma {:induction false} TrieConeIsConeOf(scopes: seq<Scope>, p: NodePath)
    ensures Closed(TrieOf(scopes))
    ensures NearestCone(TrieOf(scopes), p) == ConeOf(scopes, p)
    decreases |p|
  {
    TrieClosed(scopes);
    TrieAccumulates(scopes);
    if p != [] {
      TrieConeIsConeOf(scopes, Parent(p));
    }
  }

  lemma TrieNodeIsEffective(scopes: seq<Scope>, p: NodePath)
    ensures Closed(TrieOf(scopes))
    ensures p in TrieOf(scopes) <==> Scoped(scopes, p)
    ensures Effective(scopes, p) == if p in TrieOf(scopes) then NodePolicy(TrieOf(scopes), p) else NearestCone(TrieOf(scopes), p)
  {
    TrieConeIsConeOf(scopes, p);
    TrieAccumulates(scopes);
  }

  // ---- What masks of the launcher's kind amount to ----

  ghost predicate HasCone(scopes: seq<Scope>, p: NodePath) {
    exists s <- scopes :: s.path == p && !s.exact
  }

  /** Every cone scope replaces what it inherits, as `Policy_MaskAll` does. */
  ghost predicate Replacing(scopes: seq<Scope>) {
    forall s <- scopes :: s.mask == {} && s.values <= MaskNothing
  }

  ghost function DeepestCone(scopes: seq<Scope>, p: NodePath): (q: NodePath)
    ensures q <= p
    ensures q == [] || HasCone(scopes, q)
    ensures forall r :: r <= p && |q| < |r| ==> !HasCone(scopes, r)
    decreases |p|
  {
    if p == [] || HasCone(scopes, p) then p
    else
      var q := DeepestCone(scopes, Parent(p));
      assert forall r: NodePath {:trigger HasCone(scopes, r)} :: r <= p && r != p ==> r <= Parent(p);
      q
  }

  /** With replacing scopes a cone policy is the union of the values given at the deepest
      scoped prefix: scopes at the same path add up, deeper ones override. */
  lemma {:induction false} ReplacingCone(scopes: seq<Scope>, p: NodePath)
    requires Replacing(scopes)
    ensures ConeOf(scopes, p) == ValuesAt(scopes, DeepestCone(scopes, p), false)
    decreases |p|
  {
    if p != [] {
      ReplacingCone(scopes, Parent(p));
    }
    if HasCone(scopes, p) {
      assert MaskAt(scopes, p, false) == {};
      assert Scoped(scopes, p);
    } else {
      assert ValuesAt(scopes, p, false) == {};
      assert MaskAt(scopes, p, false) == MaskNothing;
      assert p != [] ==> ConeOf(scopes, Parent(p)) <= MaskNothing;
    }
  }

  lemma ConeWithinMask(scopes: seq<Scope>, p: NodePath)
    requires Replacing(scopes)
    ensures ConeOf(scopes, p) <= MaskNothing
  {
    ReplacingCone(scopes, p);
  }

  // ---- Each bit, whatever the masks ----

  /** A scope at exactly `q` gives the bit. */
  ghost predicate GivesBit(scopes: seq<Scope>, q: NodePath, exact: bool, bit: nat) {
    exists s <- scopes :: s.path == q && s.exact == exact && bit in s.values
  }

  /** No scope at exactly `q` masks the bit off; a fresh node's own mask keeps the lower sixteen. */
  ghost predicate KeepsBit(scopes: seq<Scope>, q: NodePath, exact: bool, bit: nat) {
    && (Scoped(scopes, q) ==> bit < 16)
    && forall s <- scopes :: s.path == q && s.exact == exact ==> bit in s.mask
  }

  lemma AtNode(scopes: seq<Scope>, q: NodePath, exact: bool, bit: nat)
    ensures bit in ValuesAt(scopes, q, exact) <==> GivesBit(scopes, q, exact, bit)
    ensures Scoped(scopes, q) ==> (bit in MaskAt(scopes, q, exact) <==> KeepsBit(scopes, q, exact, bit))
    ensures !Scoped(scopes, q) ==> !GivesBit(scopes, q, exact, bit) && KeepsBit(scopes, q, exact, bit)
  {
    hide ValuesAt, MaskAt;
    forall s | s in scopes && s.path == q ensures Scoped(scopes, q) { assert q <= s.path; }
  }

  /** A bit of a cone policy was given at some prefix and masked off at none below it. */
  ghost predicate Inherited(scopes: seq<Scope>, p: NodePath, bit: nat) {
    exists k :: 0 <= k <= |p| && GivesBit(scopes, p[..k], false, bit)
                && forall j :: k < j <= |p| ==> KeepsBit(scopes, p[..j], false, bit)
  }

  lemma {:induction false} ConeBit(scopes: seq<Scope>, p: NodePath, bit: nat)
    ensures bit in ConeOf(scopes, p) <==> Inherited(scopes, p, bit)
    decreases |p|
  {
    hide GivesBit, KeepsBit, ValuesAt, MaskAt;
    AtNode(scopes, p, false, bit);
    assert p[..|p|] == p;
    if p != [] {
      var q := Parent(p);
      ConeBit(scopes, q, bit);
      forall k | 0 <= k <= |q| ensures q[..k] == p[..k] {}
      if GivesBit(scopes, p, false, bit) {
        assert GivesBit(scopes, p[..|p|], false, bit);
      } else if Inherited(scopes, q, bit) && KeepsBit(scopes, p, false, bit) {
        var k :| 0 <= k <= |q| && GivesBit(scopes, q[..k], false, bit) && forall j :: k < j <= |q| ==> KeepsBit(scopes, q[..j], false, bit);
        assert GivesBit(scopes, p[..k], false, bit);
        forall j | k < j <= |p| ensures KeepsBit(scopes, p[..j], false, bit) {
          if j <= |q| { assert p[..j] == q[..j]; }
        }
      }
      if Inherited(scopes, p, bit) && !GivesBit(scopes, p, false, bit) {
        var k :| 0 <= k <= |p| && GivesBit(scopes, p[..k], false, bit) && forall j :: k < j <= |p| ==> KeepsBit(scopes, p[..j], false, bit);
        assert k <= |q| && KeepsBit(scopes, p[..|p|], false, bit);
        assert GivesBit(scopes, q[..k], false, bit);
        forall j | k < j <= |q| ensures KeepsBit(scopes, q[..j], false, bit) {
          assert p[..j] == q[..j];
        }
      }
    } else {
      assert p[..0] == p;
    }
  }

  /** The policy of a path bit by bit, for any masks: given by a scope on exactly this node, or
      inherited and masked off by none of them. */
  lemma PolicyBit(scopes: seq<Scope>, p: NodePath, bit: nat)
    ensures bit in Effective(scopes, p)
            <==> GivesBit(scopes, p, true, bit) || (Inherited(scopes, p, bit) && KeepsBit(scopes, p, true, bit))
  {
    hide GivesBit, KeepsBit, ValuesAt, MaskAt, Inherited;
    AtNode(scopes, p, true, bit);
    ConeBit(scopes, p, bit);
  }

  // ---- What a node scope changes ----

  /** No cone scope gives a bit above the sixteen that a fresh node's mask keeps. */
  ghost predicate LowCones(scopes: seq<Scope>) {
    forall s <- scopes :: !s.exact ==> s.values <= MaskNothing
  }

  lemma {:induction false} LowConeOf(scopes: seq<Scope>, p: NodePath)
    requires LowCones(scopes)
    ensures ConeOf(scopes, p) <= MaskNothing
    decreases |p|
  {
    if p != [] {
      LowConeOf(scopes, Parent(p));
    }
    assert ValuesAt(scopes, p, false) <= MaskNothing;
  }

  /** A node scope changes the policy of its own path only (besides giving its ancestors
      nodes of their own, whose policies are the cone policies they had). */
  lemma {:induction false} NodeScopeIsLocal(scopes: seq<Scope>, s: Scope, p: NodePath)
    requires s.exact && LowCones(scopes)
    ensures ConeOf(scopes + [s], p) == ConeOf(scopes, p)
    ensures p != s.path ==> Effective(scopes + [s], p) == Effective(scopes, p)
    decreases |p|
  {
    var more := scopes + [s];
    assert more[..|more| - 1] == scopes;
    if p != [] {
      NodeScopeIsLocal(scopes, s, Parent(p));
    }
    assert MaskAt(more, p, false) == MaskAt(scopes, p, false);
    assert ValuesAt(more, p, false) == ValuesAt(scopes, p, false);
    LowConeOf(scopes, p);
    assert Scoped(scopes, p) ==> Scoped(more, p);
    if !Scoped(scopes, p) {
      assert MaskAt(scopes, p, false) == MaskAt(scopes, p, true) == MaskNothing;
      assert ValuesAt(scopes, p, false) == ValuesAt(scopes, p, true) == {};
      if p != [] { LowConeOf(scopes, Parent(p)); }
    }
  }

  function LongestAt(scopes: seq<Scope>, k: nat): (n: nat)
    ensures forall s <- scopes :: k < |s.path| ==> |s.path[k]| <= n
  {
    if scopes == [] then 0
    else
      var n, s := LongestAt(scopes[..|scopes| - 1], k), scopes[|scopes| - 1];
      assert scopes == scopes[..|scopes| - 1] + [s];
      if k < |s.path| && |s.path[k]| > n then |s.path[k]| else n
  }

  /** A cone value with a high bit is masked off by the nodes that a node scope makes on the way
      to its path. */
  lemma HighBitMasked(scopes: seq<Scope>, high: Scope, bit: nat) returns (s: Scope, p: NodePath)
    requires high in scopes && !high.exact && bit in high.values && bit >= 16
    ensures s.exact && p != s.path && bit in Effective(scopes, p) && bit !in Effective(scopes + [s], p)
  {
    var q := high.path;
    var f: Frag := seq(LongestAt(scopes, |q|) + 1, _ => 0);
    p := q + [f];
    s := Scope(p + [f], true, {}, {});
    var more := scopes + [s];
    assert Parent(p) == q && p[|q|] == f;
    forall x <- scopes ensures !(p <= x.path) {
      assert |q| < |x.path| ==> |x.path[|q|]| < |p[|q|]|;
    }
    assert !Scoped(scopes, p) && Scoped(scopes, q);
    assert bit in ValuesAt(scopes, q, false);
    assert bit in ConeOf(scopes, q) && ConeOf(scopes, p) == ConeOf(scopes, Parent(p));
    assert s in more && p <= s.path && Scoped(more, p);
    forall x <- more ensures x.path != p {}
    assert MaskAt(more, p, false) == MaskNothing && ValuesAt(more, p, false) == {} && ValuesAt(more, p, true) == {};
  }

  /** Node scopes never change another path's policy exactly when no cone value has a high bit. */
  lemma NodeScopesLocalIff(scopes: seq<Scope>)
    ensures LowCones(scopes)
            <==> forall s: Scope, p: NodePath :: s.exact && p != s.path ==> Effective(scopes + [s], p) == Effective(scopes, p)
  {
    if LowCones(scopes) {
      forall s: Scope, p: NodePath | s.exact && p != s.path ensures Effective(scopes + [s], p) == Effective(scopes, p) {
        NodeScopeIsLocal(scopes, s, p);
      }
    } else {
      var high :| high in scopes && !high.exact && !(high.values <= MaskNothing);
      var bit :| bit in high.values && bit !in MaskNothing;
      var s, p := HighBitMasked(scopes, high, bit);
      assert Effective(scopes + [s], p) != Effective(scopes, p);
    }
  }
}
