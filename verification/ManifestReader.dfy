/** The policy lookup of the injected DLL, run over the bytes of a manifest tree, and its
    agreement with a plain walk of the tree. */
module ManifestReader {
  import opened Words
  import opened ManifestFormat
  import BT = BucketTable

  predicate IsSep(c: WChar) {
    c == 0x5C || c == 0x2F
  }

  /** A NUL-terminated wide string: no code unit is zero. */
  ghost predicate NoNul(s: Frag) {
    forall i :: 0 <= i < |s| ==> s[i] != 0
  }

  ghost predicate KeepsNoNul(n: Norm) {
    forall c: WChar :: c != 0 ==> n.up(c) != 0
  }

  /** Both flags of a bucket word, and the offset with the flags masked off. */
  predicate ChainStart(w: u32) { w % 2 == 1 }

  predicate ChainContinuation(w: u32) { w / 2 % 2 == 1 }

  function Masked(w: u32): nat { w - w % 4 }

  datatype Cmp = Same | Different | Outside

  /** Compare the normalized target with the NUL-terminated fragment stored at byte `at`. */
  function ArePathsEqual(n: Norm, target: Frag, b: seq<byte>, at: nat, i: nat): Cmp
    requires i <= |target|
    decreases |target| - i
  {
    if at + 2 * i + 2 > |b| then Outside
    else if i == |target| then if WideAt(b, at + 2 * i) == 0 then Same else Different
    else if n.up(target[i]) != WideAt(b, at + 2 * i) then Different
    else ArePathsEqual(n, target, b, at, i + 1)
  }

  /** `OutOfBounds` is a read outside the bytes or a null child, `Endless` a chain longer
      than the table. */
  datatype ChildSearch = Found(at: nat) | NotFound | OutOfBounds | Endless

  /** Compare the record at byte `at` with the target: hash first, then the fragment. */
  function Matches(n: Norm, target: Frag, b: seq<byte>, at: nat): Cmp {
    if at + 16 > |b| then Outside
    else if U32At(b, at) != n.hash(n.Fragment(target)) then Different
    else ArePathsEqual(n, target, b, at + 16 + 4 * U32At(b, at + 12), 0)
  }

  function WalkChain(n: Norm, b: seq<byte>, base: nat, buckets: nat, target: Frag, index: nat, fuel: nat): ChildSearch
    requires index < buckets && base + 16 + 4 * buckets <= |b|
    decreases fuel
  {
    if fuel == 0 then Endless
    else
      var j := BT.Next(index, buckets);
      var w := U32At(b, base + 16 + 4 * j);
      if w == 0 then OutOfBounds
      else
        match Matches(n, target, b, base + Masked(w))
        case Outside => OutOfBounds
        case Same => Found(base + Masked(w))
        case Different => if ChainContinuation(w) then WalkChain(n, b, base, buckets, target, j, fuel - 1) else NotFound
  }

  function ProbeFrom(n: Norm, b: seq<byte>, base: nat, buckets: nat, target: Frag, index: nat): ChildSearch
    requires index < buckets && base + 16 + 4 * buckets <= |b|
  {
    var w := U32At(b, base + 16 + 4 * index);
    if w == 0 then NotFound
    else
      match Matches(n, target, b, base + Masked(w))
      case Outside => OutOfBounds
      case Same => Found(base + Masked(w))
      case Different =>
        if ChainStart(w) then WalkChain(n, b, base, buckets, target, index, buckets) else NotFound
  }

  function FindChild(n: Norm, b: seq<byte>, base: nat, target: Frag): ChildSearch
    requires base + 16 <= |b| && U32At(b, base + 12) > 0
  {
    var buckets := U32At(b, base + 12);
    if base + 16 + 4 * buckets > |b| then OutOfBounds
    else ProbeFrom(n, b, base, buckets, target, BT.Home(n.hash(n.Fragment(target)), buckets))
  }

  /** The first component of a path: its leading separators are skipped over but kept. */
  function TokenEnd(path: Frag, i: nat, inLead: bool): (e: nat)
    requires i <= |path|
    ensures i <= e <= |path|
    ensures inLead && i < |path| ==> e > i
    ensures e < |path| ==> IsSep(path[e])
    decreases |path| - i
  {
    if i == |path| then i
    else if IsSep(path[i]) && !inLead then i
    else TokenEnd(path, i + 1, inLead && IsSep(path[i]))
  }

  /** The components the reader tries in turn. */
  function Tokens(path: Frag): (ts: seq<Frag>)
    decreases |path|
  {
    if path == [] then []
    else
      var e := TokenEnd(path, 0, true);
      [path[..e]] + (if e == |path| then [] else Tokens(path[e + 1..]))
  }

  /** The policy word for a path, and whether the search was truncated (no record for it). */
  datatype Answer = Policy(word: u32, exact: bool) | Unreadable

  function FindPolicy(n: Norm, b: seq<byte>, base: nat, tokens: seq<Frag>): Answer
    decreases |tokens|
  {
    if base + 16 > |b| then Unreadable
    else if tokens == [] then Policy(U32At(b, base + 8), true)
    else if U32At(b, base + 12) == 0 then Policy(U32At(b, base + 4), false)
    else
      match FindChild(n, b, base, tokens[0])
      case Found(at) => FindPolicy(n, b, at, tokens[1..])
      case NotFound => Policy(U32At(b, base + 4), false)
      case OutOfBounds => Unreadable
      case Endless => Unreadable
  }

  /** The policy the DLL enforces for a path, looked up in the tree at byte `base`. */
  function ReadPolicy(n: Norm, b: seq<byte>, base: nat, path: Frag): Answer {
    FindPolicy(n, b, base, Tokens(path))
  }

  // ---- The same search on the tree itself ----

  /** What the builder makes: hashes of the fragments, distinct non-empty sibling fragments. */
  ghost predicate WellMade(n: Norm, t: Tree) {
    && (forall i :: 0 <= i < |t.children| ==>
          && t.children[i].frag != [] && NoNul(t.children[i].frag)
          && t.children[i].hash == n.hash(t.children[i].frag))
    && (forall i, j :: 0 <= i < j < |t.children| ==> t.children[i].frag != t.children[j].frag)
    && (forall i :: 0 <= i < |t.children| ==> WellMade(n, t.children[i]))
  }

  function ChildIndex(ts: seq<Tree>, f: Frag): (i: nat)
    ensures i <= |ts|
    ensures i < |ts| ==> ts[i].frag == f
    ensures forall j :: 0 <= j < i ==> ts[j].frag != f
  {
    if ts == [] || ts[0].frag == f then 0 else 1 + ChildIndex(ts[1..], f)
  }

  /** Node policy on an exact match, else the cone policy of the deepest node met. */
  function Walk(t: Tree, frags: seq<Frag>): Answer
    decreases |frags|
  {
    if frags == [] then Policy(t.node, true)
    else
      var i := ChildIndex(t.children, frags[0]);
      if i < |t.children| then Walk(t.children[i], frags[1..]) else Policy(t.cone, false)
  }

  lemma {:induction false} PathsEqualStored(n: Norm, target: Frag, b: seq<byte>, base: nat, t: Tree, i: nat)
    requires NodeAt(b, base, t) && KeepsNoNul(n) && NoNul(target) && NoNul(t.frag)
    requires i <= |target| && i <= |t.frag| && n.Fragment(target)[..i] == t.frag[..i]
    ensures ArePathsEqual(n, target, b, base + 16 + 4 * t.Buckets(), i)
            == if n.Fragment(target) == t.frag then Same else Different
    decreases |target| - i
  {
    hide NodeLen, NodeBytes, NodeAt, Tree.Buckets, WideAt;
    FragAt(b, base, t, i);
    assert base + NodeLen(t) <= |b| by {
      NodeFits(b, base, t);
    }
    var g := n.Fragment(target);
    if i == |target| {
      if i == |t.frag| {
        assert g == g[..i] == t.frag[..i] == t.frag;
      }
    } else if i < |t.frag| && g[i] == t.frag[i] {
      assert g[..i + 1] == g[..i] + [g[i]] && t.frag[..i + 1] == t.frag[..i] + [t.frag[i]];
      PathsEqualStored(n, target, b, base, t, i + 1);
    }
  }

  lemma NodeFits(b: seq<byte>, base: nat, t: Tree)
    requires NodeAt(b, base, t)
    ensures base + 16 + 4 * t.Buckets() < base + NodeLen(t) <= |b|
  {}

  lemma MatchesStored(n: Norm, target: Frag, b: seq<byte>, base: nat, t: Tree)
    requires NodeAt(b, base, t) && NodeLen(t) < 0x1_0000_0000
    requires KeepsNoNul(n) && NoNul(target) && NoNul(t.frag) && t.hash == n.hash(t.frag)
    ensures Matches(n, target, b, base) == if n.Fragment(target) == t.frag then Same else Different
  {
    hide NodeLen, NodeBytes, NodeAt, Tree.Buckets, U32At;
    NodeFits(b, base, t);
    HeadAt(b, base, t);
    assert n.Fragment(target)[..0] == t.frag[..0];
    PathsEqualStored(n, target, b, base, t, 0);
  }

  lemma FlagsOf(offset: u32, start: bool, cont: bool)
    requires offset % 4 == 0
    ensures var w := WithFlags(offset, start, cont);
            Masked(w) == offset && ChainStart(w) == start && ChainContinuation(w) == cont
  {
    var q, f := offset / 4, (if start then 1 else 0) + (if cont then 2 else 0);
    assert WithFlags(offset, start, cont) == 4 * q + f && 0 <= f < 4;
    assert (4 * q + f) % 4 == f && (4 * q + f) / 2 == 2 * q + f / 2;
  }

  /** A stored bucket word says what its slot says. */
  lemma SlotStored(b: seq<byte>, base: nat, t: Tree, i: nat)
    requires NodeAt(b, base, t) && NodeLen(t) < 0x1_0000_0000 && i < t.Buckets()
    requires t.Slots()[i].Full? ==> t.Slots()[i].child < |t.children|
    ensures var w, s := U32At(b, base + 16 + 4 * i), t.Slots()[i];
            && (s.Empty? <==> w == 0)
            && (s.Full? ==> Masked(w) == t.Offset(s.child) && ChainStart(w) == s.start && ChainContinuation(w) == s.cont)
  {
    hide NodeBytes, NodeAt, Tree.Buckets, U32At, Tree.Slots;
    BucketAt(b, base, t, i);
    var s := t.Slots()[i];
    if s.Full? {
      ChildRange(t, s.child);
      assert t.Offset(s.child) <= t.Offset(s.child + 1) <= NodeLen(t);
      FlagsOf(t.Offset(s.child), s.start, s.cont);
    }
  }

  /** The first child's offset is stored where its hash, modulo the buckets, says, whatever
      collides with it. */
  lemma FirstChildStored(b: seq<byte>, base: nat, t: Tree)
    requires NodeAt(b, base, t) && NodeLen(t) < 0x1_0000_0000 && t.children != []
    ensures t.Buckets() > 0
    ensures var at := base + 16 + 4 * (t.children[0].hash % t.Buckets());
            at + 4 <= |b| && U32At(b, at) / 4 * 4 == t.Offset(0)
  {
    hide NodeBytes, NodeAt, U32At, Tree.Slots, Tree.Offset;
    SlotsFilled(t);
    BT.FirstStays(t.Homes(), |t.children|, t.Buckets());
    SlotsAre(t);
    SlotStored(b, base, t, t.children[0].hash % t.Buckets());
    NodeFits(b, base, t);
  }

  lemma SlotsAre(t: Tree)
    ensures t.Slots() == BT.Fill(t.Homes(), |t.children|, t.Buckets())
  {}

  /** The children a target names: at most one, as siblings have distinct fragments. */
  function Named(t: Tree, f: Frag): nat -> bool {
    (c: nat) => c < |t.children| && t.children[c].frag == f
  }

  function Lift(base: nat, t: Tree, p: BT.Probe): ChildSearch {
    match p
    case Hit(c) => if c < |t.children| then Found(base + t.Offset(c)) else OutOfBounds
    case Miss => NotFound
    case Broken => OutOfBounds
    case Lost => Endless
  }

  ghost predicate Stored(n: Norm, b: seq<byte>, base: nat, t: Tree) {
    NodeAt(b, base, t) && NodeLen(t) < 0x1_0000_0000 && WellMade(n, t)
  }

  lemma ChildMatch(n: Norm, b: seq<byte>, base: nat, t: Tree, target: Frag, c: nat)
    requires Stored(n, b, base, t) && KeepsNoNul(n) && NoNul(target) && c < |t.children|
    ensures Stored(n, b, base + t.Offset(c), t.children[c])
    ensures Matches(n, target, b, base + t.Offset(c)) == if t.children[c].frag == n.Fragment(target) then Same else Different
  {
    hide NodeBytes, NodeAt, NodeLen, Tree.Offset, Matches;
    ChildAt(b, base, t, c);
    MatchesStored(n, target, b, base + t.Offset(c), t.children[c]);
  }

  /** Walking the stored chain is walking the slots. */
  lemma {:induction false} WalkChainAgrees(n: Norm, b: seq<byte>, base: nat, t: Tree, target: Frag, index: nat, fuel: nat)
    requires Stored(n, b, base, t) && KeepsNoNul(n) && NoNul(target)
    requires index < t.Buckets() && base + 16 + 4 * t.Buckets() <= |b|
    requires forall i :: 0 <= i < t.Buckets() && t.Slots()[i].Full? ==> t.Slots()[i].child < |t.children|
    ensures WalkChain(n, b, base, t.Buckets(), target, index, fuel)
            == Lift(base, t, BT.ProbeChain(t.Slots(), index, Named(t, n.Fragment(target)), fuel))
    decreases fuel
  {
    hide NodeBytes, NodeAt, NodeLen, Tree.Buckets, U32At, Tree.Slots, Matches, WellMade, Tree.Offset;
    if fuel > 0 {
      var j := BT.Next(index, t.Buckets());
      SlotStored(b, base, t, j);
      var s := t.Slots()[j];
      if s.Full? {
        ChildMatch(n, b, base, t, target, s.child);
        WalkChainAgrees(n, b, base, t, target, j, fuel - 1);
      }
    }
  }

  lemma ProbeFromAgrees(n: Norm, b: seq<byte>, base: nat, t: Tree, target: Frag, home: nat)
    requires Stored(n, b, base, t) && KeepsNoNul(n) && NoNul(target)
    requires home < t.Buckets() && base + 16 + 4 * t.Buckets() <= |b|
    requires forall i :: 0 <= i < t.Buckets() && t.Slots()[i].Full? ==> t.Slots()[i].child < |t.children|
    ensures ProbeFrom(n, b, base, t.Buckets(), target, home)
            == Lift(base, t, BT.FindSlot(t.Slots(), home, Named(t, n.Fragment(target))))
  {
    hide NodeBytes, NodeAt, NodeLen, Tree.Buckets, U32At, Tree.Slots, Matches, WellMade, Tree.Offset, WalkChain, BT.ProbeChain;
    SlotStored(b, base, t, home);
    var s := t.Slots()[home];
    if s.Full? {
      ChildMatch(n, b, base, t, target, s.child);
      WalkChainAgrees(n, b, base, t, target, home, t.Buckets());
    }
  }

  lemma FindSlotNamed(n: Norm, t: Tree, f: Frag)
    requires WellMade(n, t) && t.children != []
    ensures BT.Holds(t.Slots(), t.Homes(), |t.children|) && t.Buckets() > 0
    ensures BT.FindSlot(t.Slots(), BT.Home(n.hash(f), t.Buckets()), Named(t, f))
            == var i := ChildIndex(t.children, f); if i < |t.children| then BT.Hit(i) else BT.Miss
  {
    hide BT.FindSlot, BT.Home, Tree.Slots;
    SlotsFilled(t);
    var wanted, i := Named(t, f), ChildIndex(t.children, f);
    BT.FindSlotAgrees(t.Slots(), t.Homes(), |t.children|, BT.Home(n.hash(f), t.Buckets()), wanted);
    assert i < |t.children| ==> wanted(i);
  }

  /** On the bytes of a well-made node the lookup finds exactly the named child, reports
      NotFound exactly when there is none, and never leaves the bytes or runs on. */
  lemma FindChildAgrees(n: Norm, b: seq<byte>, base: nat, t: Tree, target: Frag)
    requires Stored(n, b, base, t) && KeepsNoNul(n) && NoNul(target) && t.children != []
    ensures base + 16 <= |b| && U32At(b, base + 12) > 0
    ensures FindChild(n, b, base, target)
            == var i := ChildIndex(t.children, n.Fragment(target));
               if i < |t.children| then Found(base + t.Offset(i)) else NotFound
  {
    hide NodeBytes, NodeAt, NodeLen, Tree.Slots, U32At, Tree.Buckets, Tree.Offset, ProbeFrom, BT.FindSlot, BT.Home, WellMade;
    var f := n.Fragment(target);
    NodeFits(b, base, t);
    HeadAt(b, base, t);
    FindSlotNamed(n, t, f);
    ProbeFromAgrees(n, b, base, t, target, BT.Home(n.hash(f), t.Buckets()));
  }

  lemma SlotsFilled(t: Tree)
    requires t.children != []
    ensures BT.Holds(t.Slots(), t.Homes(), |t.children|)
  {
    BT.FillHolds(t.Homes(), |t.children|, t.Buckets());
  }

  /** The policy read from the bytes is the policy a plain walk of the tree finds. */
  lemma {:induction false} FindPolicyAgrees(n: Norm, b: seq<byte>, base: nat, t: Tree, tokens: seq<Frag>)
    requires Stored(n, b, base, t) && KeepsNoNul(n) && forall s <- tokens :: NoNul(s)
    ensures FindPolicy(n, b, base, tokens) == Walk(t, seq(|tokens|, i requires 0 <= i < |tokens| => n.Fragment(tokens[i])))
    decreases |tokens|
  {
    hide NodeBytes, NodeAt, NodeLen, U32At, Tree.Offset, FindChild;
    NodeFits(b, base, t);
    HeadAt(b, base, t);
    var fs := seq(|tokens|, i requires 0 <= i < |tokens| => n.Fragment(tokens[i]));
    if tokens != [] && t.children != [] {
      FindChildAgrees(n, b, base, t, tokens[0]);
      var i := ChildIndex(t.children, fs[0]);
      if i < |t.children| {
        ChildMatch(n, b, base, t, tokens[0], i);
        FindPolicyAgrees(n, b, base + t.Offset(i), t.children[i], tokens[1..]);
        assert fs[1..] == seq(|tokens[1..]|, k requires 0 <= k < |tokens[1..]| => n.Fragment(tokens[1..][k]));
      }
    }
  }
}
