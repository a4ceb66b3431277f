/** Writing into the byte vector: words, fragments, the bucket table and its patching. */
module ManifestWriter {
  import opened Words
  import opened ManifestFormat
  import opened ManifestPayload
  import BT = BucketTable

  lemma WideBytesOfNone()
    ensures WideBytes([]) == []
  {}

  /** A byte vector that is appended to and patched. */
  class ByteVector {
    var data: seq<byte>

    constructor ()
      ensures data == []
    {
      data := [];
    }

    method Push(b: byte)
      modifies this
      ensures data == old(data) + [b]
    {
      data := data + [b];
    }

    method PutU32(v: u32)
      modifies this
      ensures data == old(data) + U32Bytes(v)
    {
      data := data + U32Bytes(v);
    }

    method PatchU32(at: nat, v: u32)
      requires at + 4 <= |data|
      modifies this
      ensures data == old(data)[..at] + U32Bytes(v) + old(data)[at + 4..]
    {
      var b := U32Bytes(v);
      data := data[at := b[0]][at + 1 := b[1]][at + 2 := b[2]][at + 3 := b[3]];
    }

    /** Placeholders for a table of `n` words. */
    method PutPlaceholders(n: nat)
      modifies this
      ensures data == old(data) + Zeros(4 * n)
    {
      hide U32Bytes;
      for i := 0 to n
        invariant data == old(data) + Zeros(4 * i)
      {
        PutU32(0);
        assert U32Bytes(0) == [0, 0, 0, 0] by { ZeroWord(); }
        assert Zeros(4 * i) + [0, 0, 0, 0] == Zeros(4 * (i + 1));
      }
    }

    /** A node's fixed words, room for its bucket table, and its fragment. */
    method PutHead(hash: u32, cone: u32, node: u32, buckets: nat, f: Frag)
      requires |data| % 4 == 0
      modifies this
      ensures data == old(data) + HeadBytes(hash, cone, node, Zeros(4 * buckets), f)
    {
      hide *;
      ghost var before := data;
      PutU32(hash);
      PutU32(cone);
      PutU32(node);
      PutU32(Truncate(buckets));
      PutPlaceholders(buckets);
      PutFragment(f);
      HeadParts(before, hash, cone, node, buckets, f);
    }

    /** The code units of a fragment, low byte first. */
    method PutWide(f: Frag)
      modifies this
      ensures data == old(data) + WideBytes(f)
    {
      hide WideBytes;
      WideBytesOfNone();
      for i := 0 to |f|
        invariant data == old(data) + WideBytes(f[..i])
      {
        assert f[..i + 1] == f[..i] + [f[i]];
        WideBytesAppend(f[..i], f[i]);
        Push((f[i] as int % 0x100) as byte);
        Push((f[i] as int / 0x100) as byte);
      }
      assert f[..|f|] == f;
    }

    /** Zero bytes up to the next word of the vector. */
    method PadToWord()
      requires |data| % 4 == 0 || |data| % 4 == 2
      modifies this
      ensures data == old(data) + if |old(data)| % 4 == 0 then [] else [0, 0]
    {
      while |data| % 4 != 0
        invariant data == old(data) || (|old(data)| % 4 == 2 && (data == old(data) + [0] || data == old(data) + [0, 0]))
        decreases (4 - |data| % 4) % 4
      {
        Push(0);
      }
    }

    /** A fragment, its terminator and padding up to the next word of the vector. */
    method PutFragment(f: Frag)
      requires |data| % 4 == 0
      modifies this
      ensures data == old(data) + FragBytes(f)
    {
      hide WideBytes, U32Bytes;
      if f == [] {
        PutU32(0);
      } else {
        PutWide(f);
        Push(0);
        Push(0);
        PadToWord();
      }
    }

    /** An optional wide string behind its padded size. */
    method PutWideBlock(s: Frag)
      modifies this
      ensures data == old(data) + WideBlock(s)
    {
      hide WideBytes, U32Bytes, Truncate;
      if s == [] {
        PutU32(0);
      } else {
        var rawBytes := 2 * |s| + 2;
        var paddedBytes := RoundUp4(rawBytes);
        PutU32(Truncate(paddedBytes));
        PutWide(s);
        Push(0);
        Push(0);
        data := data + Zeros(paddedBytes - rawBytes);
        assert |WideBytes(s) + [0, 0]| == rawBytes;
      }
    }

    method PutPaddedAnsi(s: seq<byte>)
      modifies this
      ensures data == old(data) + PaddedAnsi(s)
    {
      data := data + s;
      data := data + Zeros(|PaddedAnsi(s)| - |s|);
    }

    /** Everything before the tree: flags, report path, DLL names and the two overlay roots. */
    method PutPrelude(o: Options)
      modifies this
      ensures data == old(data) + Prelude(o)
    {
      hide U32Bytes, WideBlock, PaddedAnsi, Truncate;
      PutU32(o.flags);
      PutU32(o.extraFlags);
      PutWideBlock(o.report);
      var l0, l1 := |PaddedAnsi(o.dllX86)|, |PaddedAnsi(o.dllX64)|;
      ghost var before := data;
      PutU32(Truncate(l0 + l1));
      PutU32(2);
      PutU32(0);
      PutU32(Truncate(l0));
      PutPaddedAnsi(o.dllX86);
      PutPaddedAnsi(o.dllX64);
      assert data == before + DllBlock(o.dllX86, o.dllX64);
      PutWideBlock(o.overlayRoot);
      PutWideBlock(o.sourceRoot);
    }

    /** Overwrite the table at byte `at` word by word: nothing else changes. */
    method PatchTable(at: nat, words: seq<u32>)
      requires at + 4 * |words| <= |data|
      modifies this
      ensures data == old(data)[..at] + WordsBytes(words) + old(data)[at + 4 * |words|..]
    {
      hide U32Bytes;
      ghost var before := data;
      for i := 0 to |words|
        invariant data == before[..at] + WordsBytes(words[..i]) + before[at + 4 * i..]
      {
        ghost var mid := data;
        PatchU32(at + 4 * i, words[i]);
        assert words[..i + 1] == words[..i] + [words[i]];
        WordsBytesAppend(words[..i], words[i]);
        assert mid[..at + 4 * i] == before[..at] + WordsBytes(words[..i]);
        assert mid[at + 4 * i + 4..] == before[at + 4 * (i + 1)..];
      }
      assert words[..|words|] == words;
    }
  }

  /** The head of a node whose table is the bytes `table`. */
  function HeadBytes(hash: u32, cone: u32, node: u32, table: seq<byte>, f: Frag): (b: seq<byte>)
    ensures |b| == 16 + |table| + FragLen(f)
  {
    U32Bytes(hash) + U32Bytes(cone) + U32Bytes(node) + U32Bytes(Truncate(|table| / 4)) + table + FragBytes(f)
  }

  lemma HeadParts(before: seq<byte>, hash: u32, cone: u32, node: u32, buckets: nat, f: Frag)
    ensures before + U32Bytes(hash) + U32Bytes(cone) + U32Bytes(node) + U32Bytes(Truncate(buckets)) + Zeros(4 * buckets)
              + FragBytes(f)
            == before + HeadBytes(hash, cone, node, Zeros(4 * buckets), f)
  {
    hide U32Bytes, FragBytes, Truncate, Zeros;
  }

  lemma ZeroWord()
    ensures U32Bytes(0) == [0, 0, 0, 0]
  {}

  /** `w | kChainStart` and `w | kChainContinuation`. */
  function OrStart(w: u32): u32 {
    if w % 2 == 1 then w else w + 1
  }

  function OrContinuation(w: u32): u32 {
    if w / 2 % 2 == 1 then w else w + 2
  }

  /** Slots whose children have offsets that fit a word. */
  ghost predicate Fitting(t: Tree, slots: seq<BT.Slot>) {
    && (forall c :: 0 <= c < |t.children| ==> t.Offset(c) < 0x1_0000_0000)
    && (forall i :: 0 <= i < |slots| && slots[i].Full? ==> slots[i].child < |t.children|)
  }

  function WordsOf(t: Tree, slots: seq<BT.Slot>): (ws: seq<u32>)
    ensures |ws| == |slots|
  {
    seq(|slots|, i requires 0 <= i < |slots| => t.SlotWord(slots[i]))
  }

  lemma SlotWordFlags(t: Tree, s: BT.Slot)
    requires s.Full? && s.child < |t.children| && t.Offset(s.child) < 0x1_0000_0000
    ensures t.SlotWord(s) != 0
    ensures t.SlotWord(s.(start := true)) == OrStart(t.SlotWord(s))
    ensures t.SlotWord(s.(cont := true)) == OrContinuation(t.SlotWord(s))
  {
    var o := t.Offset(s.child);
    hide Tree.Offset, WithFlags, OrStart, OrContinuation;
    assert Truncate(o) == o;
    FlagBits(o, s.start, s.cont);
  }

  lemma FlagBits(o: u32, start: bool, cont: bool)
    requires o % 4 == 0 && o > 0
    ensures WithFlags(o, start, cont) != 0
    ensures WithFlags(o, true, cont) == OrStart(WithFlags(o, start, cont))
    ensures WithFlags(o, start, true) == OrContinuation(WithFlags(o, start, cont))
  {
    var q, f := o / 4, (if start then 1 else 0) + (if cont then 2 else 0);
    assert (4 * q + f) % 2 == f % 2 && (4 * q + f) / 2 == 2 * q + f / 2;
  }

  lemma MarkStart(t: Tree, slots: seq<BT.Slot>, i: nat)
    requires Fitting(t, slots) && i < |slots| && slots[i].Full?
    ensures Fitting(t, slots[i := slots[i].(start := true)])
    ensures WordsOf(t, slots[i := slots[i].(start := true)]) == WordsOf(t, slots)[i := OrStart(WordsOf(t, slots)[i])]
  {
    hide Tree.SlotWord, OrStart, Tree.Offset;
    SlotWordFlags(t, slots[i]);
  }

  lemma MarkContinuation(t: Tree, slots: seq<BT.Slot>, i: nat)
    requires Fitting(t, slots) && i < |slots| && slots[i].Full?
    ensures Fitting(t, slots[i := slots[i].(cont := true)])
    ensures WordsOf(t, slots[i := slots[i].(cont := true)]) == WordsOf(t, slots)[i := OrContinuation(WordsOf(t, slots)[i])]
  {
    hide Tree.SlotWord, OrContinuation, Tree.Offset;
    SlotWordFlags(t, slots[i]);
  }

  lemma Occupied(t: Tree, slots: seq<BT.Slot>, i: nat)
    requires Fitting(t, slots) && i < |slots|
    ensures WordsOf(t, slots)[i] != 0 <==> slots[i].Full?
  {
    if slots[i].Full? {
      SlotWordFlags(t, slots[i]);
    }
  }

  lemma PutChild(t: Tree, slots: seq<BT.Slot>, i: nat, c: nat)
    requires Fitting(t, slots) && i < |slots| && c < |t.children|
    ensures Fitting(t, slots[i := BT.Full(c, false, false)])
    ensures WordsOf(t, slots[i := BT.Full(c, false, false)]) == WordsOf(t, slots)[i := Truncate(t.Offset(c))]
  {
    hide Tree.Offset;
  }

  /** Insert a child's offset into the table of offsets: the words of the slot insertion. */
  method InsertOffset(ghost t: Tree, offsets: seq<u32>, hash: u32, childOffset: u32, ghost slots: seq<BT.Slot>, ghost c: nat)
    returns (r: seq<u32>)
    requires Fitting(t, slots) && offsets == WordsOf(t, slots) && BT.Used(slots) < |slots|
    requires c < |t.children| && childOffset == Truncate(t.Offset(c))
    ensures r == WordsOf(t, BT.Place(slots, BT.Home(hash, |slots|), c))
    ensures Fitting(t, BT.Place(slots, BT.Home(hash, |slots|), c))
  {
    hide Fitting, WordsOf, BT.Home, OrStart, OrContinuation, Truncate, Tree.Offset;
    r := offsets;
    var home := BT.Home(hash, |offsets|);
    var index := home;
    ghost var cur := slots;
    BT.RoomWhenNotFull(slots);
    ghost var k := BT.FirstEmpty(slots, home);
    assert BT.Step(home, 0, |slots|) == home;
    Occupied(t, slots, home);
    if r[index] != 0 {
      MarkStart(t, cur, index);
      r := r[index := OrStart(r[index])];
      cur := cur[index := cur[index].(start := true)];
      BT.NextIsStep(home, 0, |slots|);
      index := BT.Next(index, |offsets|);
      Occupied(t, cur, index);
      ghost var m: nat := 1;
      while r[index] != 0
        invariant |r| == |cur| == |slots| && index < |slots| && 1 <= m <= k < |slots| && index == BT.Step(home, m, |slots|)
        invariant Fitting(t, cur) && r == WordsOf(t, cur)
        invariant r[index] != 0 <==> cur[index].Full?
        invariant cur[BT.Step(home, k, |slots|)].Empty?
        invariant forall j :: m <= j < k ==> cur[BT.Step(home, j, |slots|)].Full?
        invariant BT.Chain(cur, index, c, |slots| + 1 - m) == BT.Place(slots, home, c)
        decreases k - m
      {
        MarkContinuation(t, cur, index);
        r := r[index := OrContinuation(r[index])];
        cur := cur[index := cur[index].(cont := true)];
        BT.NextIsStep(home, m, |slots|);
        index := BT.Next(index, |offsets|);
        m := m + 1;
        Occupied(t, cur, index);
      }
    }
    PutChild(t, cur, index, c);
    r := r[index := childOffset];
  }
}
