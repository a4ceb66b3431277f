/** The serialized policy tree: the bytes a finalized tree is written as. */
module ManifestFormat {
  import opened Words
  import BucketTable

  type Frag = seq<WChar>

  /** The two functions the launcher and the injected DLL must share: the upper-casing of one
      code unit and the hash of a normalized fragment. Everything below holds for any pair. */
  datatype Norm = Norm(up: WChar -> WChar, hash: Frag -> u32)
  {
    function Fragment(f: Frag): (r: Frag)
      ensures |r| == |f|
    {
      seq<WChar>(|f|, i requires 0 <= i < |f| => up(f[i]))
    }
  }

  /** A finalized node; `children` is in serialization order. */
  datatype Tree = Tree(hash: u32, cone: u32, node: u32, frag: Frag, children: seq<Tree>)
  {
    function Buckets(): nat {
      BucketTable.BucketCount(|children|)
    }

    function HeadLen(): (n: nat)
      ensures n % 4 == 0 && n >= 20
    {
      16 + 4 * Buckets() + FragLen(frag)
    }

    /** Where child `i` starts, counted from the start of this node. */
    function Offset(i: nat): (n: nat)
      requires i <= |children|
      ensures n % 4 == 0 && n > 0
    {
      HeadLen() + KidsLen(children[..i])
    }

    function Homes(): (hs: seq<nat>)
      ensures |hs| == |children|
      ensures forall c :: 0 <= c < |hs| ==> hs[c] < Buckets() && hs[c] == BucketTable.Home(children[c].hash, Buckets())
    {
      seq(|children|, c requires 0 <= c < |children| => BucketTable.Home(children[c].hash, Buckets()))
    }

    function Slots(): (s: seq<BucketTable.Slot>)
      ensures |s| == Buckets()
    {
      BucketTable.Fill(Homes(), |children|, Buckets())
    }

    /** The bucket word for slot `s`: zero, or the child's offset with the chain flags in its
        two low bits. */
    function SlotWord(s: BucketTable.Slot): (w: u32)
    {
      match s
      case Empty => 0
      case Full(c, start, cont) =>
        if c < |children| then WithFlags(Truncate(Offset(c)), start, cont) else 0
    }

    function TableWords(): (ws: seq<u32>)
      ensures |ws| == Buckets()
    {
      seq(Buckets(), i requires 0 <= i < Buckets() => SlotWord(Slots()[i]))
    }

    function Head(): (b: seq<byte>)
      ensures |b| == HeadLen()
    {
      U32Bytes(hash) + U32Bytes(cone) + U32Bytes(node) + U32Bytes(Truncate(Buckets()))
        + WordsBytes(TableWords()) + FragBytes(frag)
    }
  }

  function WithFlags(offset: u32, start: bool, cont: bool): (w: u32) {
    if offset % 4 == 0 then offset + (if start then 1 else 0) + (if cont then 2 else 0) else offset
  }

  function FragLen(f: Frag): (n: nat)
    ensures n % 4 == 0 && n >= 4 && n >= 2 * |f| + 2
  {
    if f == [] then 4 else (2 * |f| + 5) / 4 * 4
  }

  /** A fragment is NUL-terminated and padded to a word; the root's empty one is a zero word. */
  function FragBytes(f: Frag): (b: seq<byte>)
    ensures |b| == FragLen(f)
  {
    if f == [] then U32Bytes(0) else WideBytes(f) + [0, 0] + (if |f| % 2 == 0 then [0, 0] else [])
  }

  function NodeLen(t: Tree): (n: nat)
    ensures n % 4 == 0 && n >= 20
  {
    t.HeadLen() + KidsLen(t.children)
  }

  function KidsLen(ts: seq<Tree>): (n: nat)
    ensures n % 4 == 0
  {
    if ts == [] then 0 else NodeLen(ts[0]) + KidsLen(ts[1..])
  }

  function NodeBytes(t: Tree): (b: seq<byte>)
    ensures |b| == NodeLen(t)
  {
    t.Head() + KidsBytes(t.children)
  }

  function KidsBytes(ts: seq<Tree>): (b: seq<byte>)
    ensures |b| == KidsLen(ts)
  {
    if ts == [] then [] else NodeBytes(ts[0]) + KidsBytes(ts[1..])
  }

  lemma {:induction false} KidsAppend(xs: seq<Tree>, ys: seq<Tree>)
    ensures KidsLen(xs + ys) == KidsLen(xs) + KidsLen(ys)
    ensures KidsBytes(xs + ys) == KidsBytes(xs) + KidsBytes(ys)
  {
    if xs == [] {
      assert xs + ys == ys;
    } else {
      assert (xs + ys)[1..] == xs[1..] + ys;
      KidsAppend(xs[1..], ys);
    }
  }

  lemma Shifted(a: seq<byte>, b: seq<byte>, lo: nat, hi: nat)
    requires lo <= hi <= |b|
    ensures (a + b)[|a| + lo..|a| + hi] == b[lo..hi]
  {}

  lemma {:induction false} KidRange(ts: seq<Tree>, i: nat)
    requires i < |ts|
    ensures KidsLen(ts[..i + 1]) == KidsLen(ts[..i]) + NodeLen(ts[i]) <= KidsLen(ts)
    ensures KidsBytes(ts)[KidsLen(ts[..i])..KidsLen(ts[..i + 1])] == NodeBytes(ts[i])
  {
    hide Tree.Head;
    hide NodeBytes, NodeLen;
    assert ts[..i + 1][1..] == ts[1..][..i];
    if i > 0 {
      assert ts[..i][1..] == ts[1..][..i - 1];
      KidRange(ts[1..], i - 1);
      var lo, hi := KidsLen(ts[1..][..i - 1]), KidsLen(ts[1..][..i]);
      Shifted(NodeBytes(ts[0]), KidsBytes(ts[1..]), lo, hi);
    }
  }

  /** Child `i` occupies exactly the bytes from `Offset(i)` to `Offset(i + 1)`: siblings are
      disjoint and leave no gap. */
  lemma ChildRange(t: Tree, i: nat)
    requires i < |t.children|
    ensures t.Offset(i + 1) == t.Offset(i) + NodeLen(t.children[i]) <= NodeLen(t)
    ensures NodeBytes(t)[t.Offset(i)..t.Offset(i + 1)] == NodeBytes(t.children[i])
  {
    hide Tree.Head, Tree.HeadLen;
    KidRange(t.children, i);
    Shifted(t.Head(), KidsBytes(t.children), KidsLen(t.children[..i]), KidsLen(t.children[..i + 1]));
  }

  /** The bytes of `t` start at byte `base` of `b`. */
  ghost predicate NodeAt(b: seq<byte>, base: nat, t: Tree) {
    base + NodeLen(t) <= |b| && b[base..base + NodeLen(t)] == NodeBytes(t)
  }

  lemma ChildAt(b: seq<byte>, base: nat, t: Tree, i: nat)
    requires NodeAt(b, base, t) && i < |t.children|
    ensures NodeAt(b, base + t.Offset(i), t.children[i])
    ensures NodeLen(t.children[i]) + t.Offset(i) <= NodeLen(t)
  {
    hide Tree.Head, NodeBytes, Tree.Offset;
    ChildRange(t, i);
    var lo, hi := t.Offset(i), t.Offset(i + 1);
    SliceOfSlice(b, base, base + NodeLen(t), lo, hi);
  }

  lemma WordIn(b: seq<byte>, base: nat, h: seq<byte>, at: nat, v: u32)
    requires base + |h| <= |b| && b[base..base + |h|] == h
    requires at + 4 <= |h| && h[at..at + 4] == U32Bytes(v)
    ensures U32At(b, base + at) == v
  {
    hide U32Bytes, U32At;
    SliceOfSlice(b, base, base + |h|, at, at + 4);
    U32RoundTrip(v, b, base + at);
  }

  lemma HeadWithin(b: seq<byte>, base: nat, t: Tree)
    requires NodeAt(b, base, t)
    ensures b[base..base + t.HeadLen()] == t.Head()
  {
    hide Tree.Head;
    var s := b[base..base + NodeLen(t)];
    assert t.Head() == s[..t.HeadLen()];
  }

  lemma HeadAt(b: seq<byte>, base: nat, t: Tree)
    requires NodeAt(b, base, t) && NodeLen(t) < 0x1_0000_0000
    ensures U32At(b, base) == t.hash && U32At(b, base + 4) == t.cone && U32At(b, base + 8) == t.node
    ensures U32At(b, base + 12) == t.Buckets()
  {
    hide U32Bytes, U32At, Tree.TableWords, WordsBytes, FragBytes;
    var h := t.Head();
    HeadWithin(b, base, t);
    WordIn(b, base, h, 0, t.hash);
    WordIn(b, base, h, 4, t.cone);
    WordIn(b, base, h, 8, t.node);
    WordIn(b, base, h, 12, Truncate(t.Buckets()));
  }

  lemma BucketAt(b: seq<byte>, base: nat, t: Tree, i: nat)
    requires NodeAt(b, base, t) && i < t.Buckets()
    ensures U32At(b, base + 16 + 4 * i) == t.SlotWord(t.Slots()[i])
  {
    hide U32Bytes, U32At, WordsBytes, FragBytes, Tree.SlotWord, Tree.Slots, NodeLen;
    var h, ws := t.Head(), t.TableWords();
    HeadWithin(b, base, t);
    WordsBytesAt(ws, i);
    assert h[16..16 + 4 * t.Buckets()] == WordsBytes(ws);
    assert h[16 + 4 * i..16 + 4 * i + 4] == WordsBytes(ws)[4 * i..4 * i + 4];
    WordIn(b, base, h, 16 + 4 * i, ws[i]);
  }

  /** The fragment of the node, terminator included, is where the reader looks for it. */
  lemma FragAt(b: seq<byte>, base: nat, t: Tree, i: nat)
    requires NodeAt(b, base, t) && i <= |t.frag|
    ensures base + 16 + 4 * t.Buckets() + 2 * i + 2 <= base + NodeLen(t)
    ensures WideAt(b, base + 16 + 4 * t.Buckets() + 2 * i) == if i < |t.frag| then t.frag[i] else 0
  {
    hide U32Bytes, WordsBytes, Tree.TableWords, LowHigh, NodeBytes, WideBytes;
    var at, h, f := 16 + 4 * t.Buckets(), t.Head(), FragBytes(t.frag);
    HeadWithin(b, base, t);
    assert h[at..] == f;
    assert b[base + at + 2 * i] == h[at + 2 * i] == f[2 * i];
    assert b[base + at + 2 * i + 1] == h[at + 2 * i + 1] == f[2 * i + 1];
    FragUnit(t.frag, i);
  }

  lemma FragUnit(f: Frag, i: nat)
    requires i <= |f|
    ensures WideAt(FragBytes(f), 2 * i) == if i < |f| then f[i] else 0
  {
    if i < |f| {
      WideBytesAt(f, i);
    }
  }
}
