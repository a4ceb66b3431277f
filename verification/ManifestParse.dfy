/** Reading a whole tree back from its bytes. */
module ManifestParse {
  import opened Words
  import opened ManifestFormat
  import opened ManifestReader
  import BT = BucketTable

  datatype Parsed<+T> = Parsed(value: T, end: nat) | Bad

  /** The NUL-terminated text at byte `at`, as far as the bytes go. */
  function TextAt(b: seq<byte>, at: nat): (f: Frag)
    decreases |b| - at
  {
    if at + 2 > |b| || WideAt(b, at) == 0 then [] else [WideAt(b, at)] + TextAt(b, at + 2)
  }

  /** How many of the `n` bucket words from byte `at` are not empty. */
  function Occupied(b: seq<byte>, at: nat, n: nat): (c: nat)
    requires at + 4 * n <= |b|
    decreases n
  {
    if n == 0 then 0 else (if U32At(b, at) != 0 then 1 else 0) + Occupied(b, at + 4, n - 1)
  }

  /** The record at byte `base`, its children being the records that follow it. */
  function ParseNode(b: seq<byte>, base: nat): (r: Parsed<Tree>)
    ensures r.Parsed? ==> base < r.end
    decreases |b| - base, 0
  {
    if base + 16 > |b| || base + 16 + 4 * U32At(b, base + 12) > |b| then Bad
    else
      var buckets := U32At(b, base + 12);
      var frag := TextAt(b, base + 16 + 4 * buckets);
      var head := base + 16 + 4 * buckets + FragLen(frag);
      if head > |b| then Bad
      else
        match ParseKids(b, head, Occupied(b, base + 16, buckets))
        case Parsed(kids, end) =>
          Parsed(Tree(U32At(b, base), U32At(b, base + 4), U32At(b, base + 8), frag, kids), end)
        case Bad => Bad
  }

  function ParseKids(b: seq<byte>, base: nat, count: nat): (r: Parsed<seq<Tree>>)
    requires base <= |b|
    ensures r.Parsed? ==> base <= r.end
    decreases |b| - base, 1
  {
    if count == 0 then Parsed([], base)
    else
      match ParseNode(b, base)
      case Bad => Bad
      case Parsed(t, end) =>
        if end > |b| then Bad
        else
          match ParseKids(b, end, count - 1)
          case Parsed(kids, last) => Parsed([t] + kids, last)
          case Bad => Bad
  }

  /** Fragments can be told from their terminator, all the way down. */
  ghost predicate NulFree(t: Tree) {
    NoNul(t.frag) && forall c <- t.children :: NulFree(c)
  }

  lemma {:induction false} TextAtStored(b: seq<byte>, base: nat, t: Tree, i: nat)
    requires NodeAt(b, base, t) && NoNul(t.frag) && i <= |t.frag|
    ensures TextAt(b, base + 16 + 4 * t.Buckets() + 2 * i) == t.frag[i..]
    decreases |t.frag| - i
  {
    hide NodeLen, NodeBytes, NodeAt, Tree.Buckets, WideAt;
    FragAt(b, base, t, i);
    NodeFits(b, base, t);
    if i < |t.frag| {
      TextAtStored(b, base, t, i + 1);
      assert t.frag[i..] == [t.frag[i]] + t.frag[i + 1..];
    }
  }

  /** The table shows one non-empty bucket per child. */
  lemma {:induction false} OccupiedStored(b: seq<byte>, base: nat, t: Tree, i: nat)
    requires NodeAt(b, base, t) && NodeLen(t) < 0x1_0000_0000 && i <= t.Buckets()
    requires base + 16 + 4 * t.Buckets() <= |b|
    requires forall k :: 0 <= k < t.Buckets() && t.Slots()[k].Full? ==> t.Slots()[k].child < |t.children|
    ensures Occupied(b, base + 16 + 4 * i, t.Buckets() - i) == BT.Used(t.Slots()[i..])
    decreases t.Buckets() - i
  {
    hide NodeLen, NodeBytes, NodeAt, Tree.Buckets, Tree.Slots, U32At;
    if i < t.Buckets() {
      SlotStored(b, base, t, i);
      OccupiedStored(b, base, t, i + 1);
      assert t.Slots()[i..][1..] == t.Slots()[i + 1..] && t.Slots()[i..][0] == t.Slots()[i];
    }
  }

  lemma ChildCount(b: seq<byte>, base: nat, t: Tree)
    requires NodeAt(b, base, t) && NodeLen(t) < 0x1_0000_0000
    ensures base + 16 + 4 * t.Buckets() <= |b|
    ensures Occupied(b, base + 16, t.Buckets()) == |t.children|
  {
    NodeFits(b, base, t);
    BT.FillHolds(t.Homes(), |t.children|, t.Buckets());
    hide NodeLen, NodeBytes, NodeAt, Tree.Buckets;
    OccupiedStored(b, base, t, 0);
    assert t.Slots()[0..] == t.Slots();
  }

  /** Parsing a stored node reads its own fields and then its children. */
  lemma ParseHead(b: seq<byte>, base: nat, t: Tree)
    requires NodeAt(b, base, t) && NodeLen(t) < 0x1_0000_0000 && NoNul(t.frag)
    ensures base + t.HeadLen() <= |b|
    ensures ParseNode(b, base)
            == match ParseKids(b, base + t.HeadLen(), |t.children|)
               case Parsed(kids, end) => Parsed(Tree(t.hash, t.cone, t.node, t.frag, kids), end)
               case Bad => Bad
  {
    hide NodeBytes, NodeAt, Tree.Buckets, U32At, Occupied, TextAt, KidsLen, FragLen, ParseKids;
    ChildCount(b, base, t);
    NodeFits(b, base, t);
    HeadAt(b, base, t);
    TextAtStored(b, base, t, 0);
    assert t.frag[0..] == t.frag;
  }

  /** Serializer round trip: parsing the bytes of a tree gives back exactly that tree, and
      ends where its bytes end. */
  lemma {:induction false} ParseNodeRoundTrip(b: seq<byte>, base: nat, t: Tree)
    requires NodeAt(b, base, t) && NodeLen(t) < 0x1_0000_0000 && NulFree(t)
    ensures ParseNode(b, base) == Parsed(t, base + NodeLen(t))
    decreases t, 0
  {
    hide NodeBytes, NodeAt, Tree.Buckets, KidsLen, ParseNode, ParseKids, Tree.HeadLen, NoNul;
    ParseHead(b, base, t);
    KidsStored(b, base, t);
    ParseKidsRoundTrip(b, base + t.HeadLen(), t.children);
  }

  ghost predicate KidsAt(b: seq<byte>, base: nat, ts: seq<Tree>) {
    base + KidsLen(ts) <= |b| && b[base..base + KidsLen(ts)] == KidsBytes(ts)
  }

  lemma KidsStored(b: seq<byte>, base: nat, t: Tree)
    requires NodeAt(b, base, t)
    ensures KidsAt(b, base + t.HeadLen(), t.children)
  {
    hide Tree.Head, Tree.HeadLen;
    SliceOfSlice(b, base, base + NodeLen(t), t.HeadLen(), NodeLen(t));
    assert NodeBytes(t)[t.HeadLen()..] == KidsBytes(t.children);
  }

  lemma {:induction false} ParseKidsRoundTrip(b: seq<byte>, base: nat, ts: seq<Tree>)
    requires KidsAt(b, base, ts) && KidsLen(ts) < 0x1_0000_0000 && forall c <- ts :: NulFree(c)
    ensures base <= |b| && ParseKids(b, base, |ts|) == Parsed(ts, base + KidsLen(ts))
    decreases ts, 1
  {
    hide NodeBytes, NodeAt, NodeLen, KidsBytes, ParseNode, NulFree;
    if ts != [] {
      FirstKid(b, base, ts);
      ParseNodeRoundTrip(b, base, ts[0]);
      NodeFits(b, base, ts[0]);
      ParseKidsRoundTrip(b, base + NodeLen(ts[0]), ts[1..]);
      assert ts == [ts[0]] + ts[1..];
    }
  }

  lemma KidsUnfold(ts: seq<Tree>)
    requires ts != []
    ensures KidsLen(ts) == NodeLen(ts[0]) + KidsLen(ts[1..])
    ensures KidsBytes(ts) == NodeBytes(ts[0]) + KidsBytes(ts[1..])
  {}

  lemma FirstKid(b: seq<byte>, base: nat, ts: seq<Tree>)
    requires KidsAt(b, base, ts) && ts != []
    ensures NodeAt(b, base, ts[0]) && KidsAt(b, base + NodeLen(ts[0]), ts[1..])
    ensures KidsLen(ts) == NodeLen(ts[0]) + KidsLen(ts[1..])
  {
    hide NodeLen, NodeBytes, KidsLen, KidsBytes;
    KidsUnfold(ts);
    Halves(b, base, NodeBytes(ts[0]), KidsBytes(ts[1..]));
  }

  lemma Halves(b: seq<byte>, base: nat, x: seq<byte>, y: seq<byte>)
    requires base + |x| + |y| <= |b| && b[base..base + |x| + |y|] == x + y
    ensures b[base..base + |x|] == x && b[base + |x|..base + |x| + |y|] == y
  {
    SliceOfSlice(b, base, base + |x| + |y|, 0, |x|);
    SliceOfSlice(b, base, base + |x| + |y|, |x|, |x| + |y|);
  }
}
