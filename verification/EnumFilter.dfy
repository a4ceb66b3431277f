/** In-place filtering of a packed directory listing. */
module EnumFilter {
  import opened Optional
  import opened Words
  import opened DirRecords

  function NamesAt(b: seq<byte>, w: seq<nat>, l: Layout): (ns: seq<Name>)
    ensures |ns| == |w|
  {
    seq(|w|, i requires 0 <= i < |w| => if Fits(b, w[i], l) then NameAt(b, w[i], l) else [])
  }

  /** The names a reader finds when it follows the links from the first record. */
  function Listed(b: seq<byte>, l: Layout): seq<Name> {
    NamesAt(b, Walk(b, 0, l), l)
  }

  lemma {:induction false} WalkFits(b: seq<byte>, o: nat, l: Layout)
    ensures forall k <- Walk(b, o, l) :: Fits(b, k, l)
    decreases |b| - o
  {
    if Fits(b, o, l) && U32At(b, o) != 0 {
      WalkFits(b, o + U32At(b, o), l);
    }
  }

  function Visible(ns: seq<Name>, visible: Name -> bool): (vs: seq<Name>) {
    if ns == [] then [] else
      var front := Visible(ns[..|ns| - 1], visible);
      if visible(ns[|ns| - 1]) then front + [ns[|ns| - 1]] else front
  }

  lemma {:induction false} VisibleHas(ns: seq<Name>, visible: Name -> bool, n: Name)
    ensures n in Visible(ns, visible) <==> n in ns && visible(n)
  {
    if ns != [] {
      VisibleHas(ns[..|ns| - 1], visible, n);
      assert ns == ns[..|ns| - 1] + [ns[|ns| - 1]];
    }
  }

  /** The hidden names before the first visible one. */
  function Leading(ns: seq<Name>, visible: Name -> bool): (hs: seq<Name>) {
    if ns == [] || visible(ns[0]) then [] else [ns[0]] + Leading(ns[1..], visible)
  }

  lemma {:induction false} KeepsVisible(b: seq<byte>, w: seq<nat>, l: Layout, visible: Name -> bool)
    requires forall o <- w :: Fits(b, o, l)
    ensures NamesAt(b, Keep(b, w, l, visible), l) == Visible(NamesAt(b, w, l), visible)
  {
    if w != [] {
      var front := w[..|w| - 1];
      KeepsVisible(b, front, l, visible);
      assert NamesAt(b, w, l)[..|w| - 1] == NamesAt(b, front, l);
      assert w[|w| - 1] in w;
    }
  }

  /** Kept offsets are some of the offsets walked, in order. */
  lemma {:induction false} KeepOrder(b: seq<byte>, w: seq<nat>, l: Layout, visible: Name -> bool)
    requires Spaced(b, w, l)
    ensures Spaced(b, Keep(b, w, l, visible), l)
    ensures forall k <- Keep(b, w, l, visible) :: w != [] && k <= w[|w| - 1]
  {
    if w != [] {
      var front, o := w[..|w| - 1], w[|w| - 1];
      assert forall k <- front :: Fits(b, k, l);
      KeepOrder(b, front, l, visible);
      var ks := Keep(b, front, l, visible);
      forall i | 0 <= i < |ks| ensures ks[i] + l.nameOff + NameLen(b, ks[i], l) <= o {
        assert ks[i] in front;
        var j :| 0 <= j < |front| && front[j] == ks[i];
        assert w[j] + l.nameOff + NameLen(b, w[j], l) <= w[|w| - 1];
      }
    }
  }

  lemma SpacedLinks(b: seq<byte>, w: seq<nat>, l: Layout)
    requires Sound(l) && Spaced(b, w, l) && forall o <- w :: o < 0x1_0000_0000
    ensures Links(b, w)
  {
    forall i | 0 <= i < |w| ensures w[i] + 4 <= |b| && w[i] < 0x1_0000_0000 {
      assert w[i] in w && Fits(b, w[i], l);
    }
  }

  /** The offsets kept by the filter. */
  function Kept(b: seq<byte>, l: Layout, visible: Name -> bool): (ks: seq<nat>) {
    WalkFits(b, 0, l);
    Keep(b, Walk(b, 0, l), l, visible)
  }

  ghost predicate GoodChain(b: seq<byte>, l: Layout) {
    Sound(l) && |b| < 0x1_0000_0000 && WellFormed(b, 0, l)
  }

  /** What the loop itself needs of the bytes; records may overlap. */
  ghost predicate GoodLinks(b: seq<byte>, l: Layout) {
    Sound(l) && |b| < 0x1_0000_0000 && Linked(b, 0, l)
  }

  lemma GoodChainLinks(b: seq<byte>, l: Layout)
    requires GoodChain(b, l)
    ensures GoodLinks(b, l)
  {
    WellFormedLinked(b, 0, l);
  }

  lemma KeptLinks(b: seq<byte>, l: Layout, visible: Name -> bool)
    requires GoodChain(b, l)
    ensures Spaced(b, Kept(b, l, visible), l) && Links(b, Kept(b, l, visible))
    ensures NamesAt(b, Kept(b, l, visible), l) == Visible(Listed(b, l), visible)
  {
    var w, ks := Walk(b, 0, l), Kept(b, l, visible);
    WalkSpaced(b, 0, l);
    WalkFits(b, 0, l);
    KeepOrder(b, w, l, visible);
    KeepsVisible(b, w, l, visible);
    forall k <- ks ensures k < 0x1_0000_0000 {
      var i :| 0 <= i < |w| && w[i] == k;
    }
    SpacedLinks(b, ks, l);
  }

  /** Following the links from the first kept record gives exactly the visible names in order;
      with none kept the buffer is as it was. */
  lemma FilterFromFirst(b: seq<byte>, l: Layout, visible: Name -> bool)
    requires GoodChain(b, l)
    ensures var ks := Kept(b, l, visible);
            && Links(b, ks)
            && (ks == [] <==> Visible(Listed(b, l), visible) == [])
            && (ks == [] ==> Relinked(b, ks) == b)
            && (ks != [] ==> Walk(Relinked(b, ks), ks[0], l) == ks
                             && NamesAt(Relinked(b, ks), ks, l) == Visible(Listed(b, l), visible))
  {
    hide U32At, Relinked, Walk, Keep, Visible;
    var ks := Kept(b, l, visible);
    KeptLinks(b, l, visible);
    assert |ks| == |NamesAt(b, ks, l)|;
    if ks != [] {
      KeptChain(b, ks, l);
      var r := Relinked(b, ks);
      forall j | 0 <= j < |ks| ensures NamesAt(r, ks, l)[j] == NamesAt(b, ks, l)[j] {
        assert ks[j] in ks;
      }
    } else {
      NoneRelinked(b);
    }
  }

  lemma NoneRelinked(b: seq<byte>)
    ensures Relinked(b, []) == b
  {}

  /** Following them from the start of the buffer gives the hidden names before the first
      visible one as well: the head of the chain never moves. So a listing read from offset 0
      is filtered exactly when its first record is visible. */
  lemma FilterFromStart(b: seq<byte>, l: Layout, visible: Name -> bool)
    requires GoodChain(b, l) && Kept(b, l, visible) != []
    ensures Links(b, Kept(b, l, visible))
    ensures Listed(Relinked(b, Kept(b, l, visible)), l)
            == Leading(Listed(b, l), visible) + Visible(Listed(b, l), visible)
  {
    hide U32At, Relinked, Walk, Kept, Visible, Leading, NamesAt, WellFormed;
    var w, ks := Walk(b, 0, l), Kept(b, l, visible);
    KeptLinks(b, l, visible);
    FilterFromFirst(b, l, visible);
    var i := FirstKept(b, l, visible);
    assert w[0..] == w && w[0..i] == w[..i];
    HeadStays(b, l, ks, w, i, 0);
    HeadNames(b, l, visible, i);
    NamesOfBoth(Relinked(b, ks), w[..i], ks, l);
  }

  lemma NamesOfBoth(b: seq<byte>, v: seq<nat>, w: seq<nat>, l: Layout)
    ensures NamesAt(b, v + w, l) == NamesAt(b, v, l) + NamesAt(b, w, l)
  {}

  lemma FirstKept(b: seq<byte>, l: Layout, visible: Name -> bool) returns (i: nat)
    requires GoodChain(b, l) && Kept(b, l, visible) != []
    ensures Sound(l) && Spaced(b, Walk(b, 0, l), l) && i < |Walk(b, 0, l)| && Walk(b, 0, l)[0] == 0
    ensures Walk(b, 0, l)[i] == Kept(b, l, visible)[0] && visible(Listed(b, l)[i])
    ensures forall j :: 0 <= j < i ==> !visible(Listed(b, l)[j])
  {
    hide Walk, Keep;
    WalkSpaced(b, 0, l);
    WalkFits(b, 0, l);
    i := KeepFirst(b, Walk(b, 0, l), l, visible);
  }

  lemma HeadNames(b: seq<byte>, l: Layout, visible: Name -> bool, i: nat)
    requires GoodChain(b, l) && Links(b, Kept(b, l, visible)) && Kept(b, l, visible) != []
    requires Spaced(b, Walk(b, 0, l), l) && i < |Walk(b, 0, l)|
    requires Walk(b, 0, l)[i] == Kept(b, l, visible)[0] && visible(Listed(b, l)[i])
    requires forall j :: 0 <= j < i ==> !visible(Listed(b, l)[j])
    ensures NamesAt(Relinked(b, Kept(b, l, visible)), Walk(b, 0, l)[..i], l) == Leading(Listed(b, l), visible)
  {
    hide Walk, Kept, Leading, Relinked;
    var w, ks := Walk(b, 0, l), Kept(b, l, visible);
    LeadingIs(Listed(b, l), visible, i);
    forall j | 0 <= j < i ensures NamesAt(Relinked(b, ks), w[..i], l)[j] == Listed(b, l)[..i][j] {
      SameHead(b, l, ks, w, i, j);
    }
  }

  lemma {:induction false} KeepFirst(b: seq<byte>, w: seq<nat>, l: Layout, visible: Name -> bool) returns (i: nat)
    requires forall o <- w :: Fits(b, o, l)
    ensures i <= |w| && forall j :: 0 <= j < i ==> !visible(NameAt(b, w[j], l))
    ensures var ks := Keep(b, w, l, visible);
            if i == |w| then ks == [] else ks != [] && w[i] == ks[0] && visible(NameAt(b, w[i], l))
  {
    if w == [] {
      i := 0;
    } else {
      var n := |w| - 1;
      assert forall j :: 0 <= j < n ==> w[..n][j] == w[j];
      i := KeepFirst(b, w[..n], l, visible);
      if i == n && !visible(NameAt(b, w[n], l)) {
        i := |w|;
      }
    }
  }

  lemma {:induction false} LeadingIs(ns: seq<Name>, visible: Name -> bool, i: nat)
    requires i < |ns| && visible(ns[i]) && forall j :: 0 <= j < i ==> !visible(ns[j])
    ensures Leading(ns, visible) == ns[..i]
  {
    if i > 0 {
      LeadingIs(ns[1..], visible, i - 1);
      assert ns[..i] == [ns[0]] + ns[1..][..i - 1];
    }
  }

  /** Records before the first kept one keep their links. */
  lemma {:induction false} HeadStays(b: seq<byte>, l: Layout, ks: seq<nat>, w: seq<nat>, i: nat, j: nat)
    requires Sound(l) && Links(b, ks) && ks != [] && Walk(Relinked(b, ks), ks[0], l) == ks
    requires j <= i < |w| && w[i] == ks[0] && Walk(b, w[j], l) == w[j..] && Spaced(b, w, l)
    ensures Walk(Relinked(b, ks), w[j], l) == w[j..i] + ks
    decreases i - j
  {
    hide *;
    if j == i {
      assert w[j..i] + ks == ks;
    } else {
      SameHead(b, l, ks, w, i, j);
      WalkStep(b, w[j], l);
      assert w[j..][1] == w[j + 1] && w[j..][1..] == w[j + 1..];
      HeadStays(b, l, ks, w, i, j + 1);
      WalkUnfold(Relinked(b, ks), w[j], l);
      assert w[j..i] + ks == [w[j]] + (w[j + 1..i] + ks);
    }
  }

  lemma WalkUnfold(b: seq<byte>, o: nat, l: Layout)
    requires o + 4 <= |b| && Fits(b, o, l) && U32At(b, o) != 0
    ensures Walk(b, o, l) == [o] + Walk(b, o + U32At(b, o), l)
  {}

  lemma WalkStep(b: seq<byte>, o: nat, l: Layout)
    requires |Walk(b, o, l)| > 1
    ensures U32At(b, o) != 0 && Walk(b, o + U32At(b, o), l) == Walk(b, o, l)[1..]
    ensures Walk(b, o, l)[1] == o + U32At(b, o)
  {}

  lemma SameHead(b: seq<byte>, l: Layout, ks: seq<nat>, w: seq<nat>, i: nat, j: nat)
    requires Sound(l) && Links(b, ks) && ks != [] && j < i < |w| && w[i] == ks[0] && Spaced(b, w, l)
    ensures w[j] + 4 <= |b| && Fits(Relinked(b, ks), w[j], l) && U32At(Relinked(b, ks), w[j]) == U32At(b, w[j])
    ensures NameAt(Relinked(b, ks), w[j], l) == NameAt(b, w[j], l)
  {
    hide U32At, Relinked;
    var r, o := Relinked(b, ks), w[j];
    assert o + l.nameOff + NameLen(b, o, l) <= w[i];
    forall x | o <= x < o + l.nameOff + NameLen(b, o, l) ensures r[x] == b[x] {
      forall m | 0 <= m < |ks| ensures !(ks[m] <= x < ks[m] + 4) {
        if m > 0 { assert ks[0] + 4 <= ks[m]; }
      }
      RelinkedOnlyLinks(b, ks, x);
    }
    SameWord(r, b, o);
    SameRecord(r, b, o, l);
  }

  // ---- The loop ----

  method StoreU32(buffer: array<byte>, at: nat, v: u32)
    requires at + 4 <= buffer.Length
    modifies buffer
    ensures buffer[..] == PutU32(old(buffer[..]), at, v)
  {
    var s := U32Bytes(v);
    buffer[at], buffer[at + 1], buffer[at + 2], buffer[at + 3] := s[0], s[1], s[2], s[3];
  }

  /** The records walked so far and those still to come. */
  ghost predicate Split(b: seq<byte>, l: Layout, done: seq<nat>, offset: nat) {
    Linked(b, offset, l) && done + Walk(b, offset, l) == Walk(b, 0, l)
  }

  lemma {:induction false} KeepLinks(b: seq<byte>, w: seq<nat>, l: Layout, visible: Name -> bool)
    requires (forall o <- w :: Fits(b, o, l)) && Links(b, w)
    ensures Links(b, Keep(b, w, l, visible))
  {
    if w != [] {
      var front, o := w[..|w| - 1], w[|w| - 1];
      KeepLinks(b, front, l, visible);
      var ks := Keep(b, front, l, visible);
      forall i | 0 <= i < |ks| ensures ks[i] + 4 <= o {
        assert ks[i] in front;
        var j :| 0 <= j < |front| && front[j] == ks[i];
        assert w[j] + 4 <= w[|w| - 1];
      }
    }
  }

  lemma FrontLinks(b: seq<byte>, l: Layout, visible: Name -> bool, done: seq<nat>)
    requires GoodLinks(b, l) && done <= Walk(b, 0, l)
    ensures (forall o <- done :: Fits(b, o, l)) && Links(b, Keep(b, done, l, visible))
  {
    hide Keep, Walk, Linked;
    var w := Walk(b, 0, l);
    WalkLinks(b, 0, l);
    WalkFits(b, 0, l);
    assert forall i :: 0 <= i < |done| ==> done[i] == w[i] && w[i] in w;
    KeepLinks(b, done, l, visible);
  }

  /** The records kept among those walked so far. */
  ghost function KeptOf(b: seq<byte>, l: Layout, visible: Name -> bool, done: seq<nat>): (ks: seq<nat>)
    requires GoodLinks(b, l) && done <= Walk(b, 0, l)
    ensures Links(b, ks)
  {
    FrontLinks(b, l, visible, done);
    Keep(b, done, l, visible)
  }

  lemma DonePrefix(b: seq<byte>, l: Layout, done: seq<nat>, offset: nat)
    requires Split(b, l, done, offset)
    ensures done <= Walk(b, 0, l)
    ensures Fits(b, offset, l) ==> done + [offset] <= Walk(b, 0, l)
  {
    assert (done + Walk(b, offset, l))[..|done|] == done;
    if Fits(b, offset, l) {
      assert (done + Walk(b, offset, l))[..|done| + 1] == done + [offset];
    }
  }

  /** The record at hand lies past every link written so far. */
  lemma KeptBehind(b: seq<byte>, l: Layout, visible: Name -> bool, done: seq<nat>, offset: nat, j: nat)
    requires GoodLinks(b, l) && done + [offset] <= Walk(b, 0, l) && done <= Walk(b, 0, l)
    requires j < |KeptOf(b, l, visible, done)|
    ensures KeptOf(b, l, visible, done)[j] + 4 <= offset
  {
    hide U32At, Keep, Walk, Linked, NameLen;
    var w, ks := Walk(b, 0, l), KeptOf(b, l, visible, done);
    FrontLinks(b, l, visible, done);
    WalkLinks(b, 0, l);
    assert ks[j] in done;
    var i :| 0 <= i < |done| && done[i] == ks[j];
    assert w[i] == ks[j] && w[|done|] == (done + [offset])[|done|];
    assert w[i] + 4 <= w[|done|];
  }

  /** So it still reads as it did at the start. */
  lemma RecordAhead(b: seq<byte>, l: Layout, visible: Name -> bool, done: seq<nat>, offset: nat)
    requires GoodLinks(b, l) && done + [offset] <= Walk(b, 0, l) && done <= Walk(b, 0, l) && Fits(b, offset, l)
    ensures var r := Relink(b, KeptOf(b, l, visible, done));
            |r| == |b| && offset + 4 <= |b| && Fits(r, offset, l)
            && U32At(r, offset) == U32At(b, offset) && NameAt(r, offset, l) == NameAt(b, offset, l)
  {
    hide U32At, Relink, KeptOf, Walk, Linked;
    var ks := KeptOf(b, l, visible, done);
    var r := Relink(b, ks);
    forall x | offset <= x < |b| ensures r[x] == b[x] {
      forall j | 0 <= j < |ks| ensures ks[j] + 4 <= offset {
        KeptBehind(b, l, visible, done, offset, j);
      }
      RelinkOnlyLinks(b, ks, x);
    }
    SameWord(r, b, offset);
    SameRecord(r, b, offset, l);
  }

  /** Taking in one more record. */
  lemma TakeRecord(b: seq<byte>, l: Layout, visible: Name -> bool, done: seq<nat>, offset: nat)
    requires GoodLinks(b, l) && done + [offset] <= Walk(b, 0, l) && done <= Walk(b, 0, l) && Fits(b, offset, l)
    ensures KeptOf(b, l, visible, done + [offset])
            == if visible(NameAt(b, offset, l)) then KeptOf(b, l, visible, done) + [offset] else KeptOf(b, l, visible, done)
  {
    hide Walk, Linked;
    FrontLinks(b, l, visible, done);
    FrontLinks(b, l, visible, done + [offset]);
    assert (done + [offset])[..|done|] == done;
  }

  lemma RelinkMore(b: seq<byte>, ks: seq<nat>, o: nat)
    requires Links(b, ks) && Links(b, ks + [o])
    ensures ks == [] ==> Relink(b, ks) == b && Relink(b, ks + [o]) == b
    ensures ks != [] ==> var last := ks[|ks| - 1];
                         last + 4 <= |b| && 0 <= o - last < 0x1_0000_0000 && Relink(b, ks + [o]) == PutU32(Relink(b, ks), last, o - last)
  {
    hide PutU32, Relink;
    var m := ks + [o];
    RelinkUnfold(b, ks);
    RelinkUnfold(b, m);
    if ks != [] {
      assert m[..|m| - 1] == ks && m[|m| - 1] == o && m[|m| - 2] == ks[|ks| - 1];
      assert m[|ks| - 1] + 4 <= m[|ks|];
    }
  }

  lemma RelinkUnfold(b: seq<byte>, m: seq<nat>)
    requires Links(b, m)
    ensures |m| <= 1 ==> Relink(b, m) == b
    ensures |m| > 1 ==> Links(b, m[..|m| - 1]) && m[|m| - 2] + 4 <= |b| && 0 <= m[|m| - 1] - m[|m| - 2] < 0x1_0000_0000
                        && Relink(b, m) == PutU32(Relink(b, m[..|m| - 1]), m[|m| - 2], m[|m| - 1] - m[|m| - 2])
  {
    hide PutU32, Links;
    if |m| > 1 {
      LinksFront(b, m);
    }
  }

  lemma LinksFront(b: seq<byte>, m: seq<nat>)
    requires Links(b, m) && |m| > 1
    ensures Links(b, m[..|m| - 1]) && m[|m| - 2] + 4 <= |b| && 0 <= m[|m| - 1] - m[|m| - 2] < 0x1_0000_0000
  {}

  /** Following the link of the record at hand. */
  lemma NextRecord(b: seq<byte>, l: Layout, done: seq<nat>, offset: nat)
    requires Split(b, l, done, offset) && offset + 4 <= |b| && Fits(b, offset, l)
    ensures U32At(b, offset) == 0 ==> done + [offset] == Walk(b, 0, l)
    ensures U32At(b, offset) != 0 ==> Split(b, l, done + [offset], offset + U32At(b, offset)) && offset + U32At(b, offset) < 0x1_0000_0000
  {
    hide U32At, NameLen;
    if U32At(b, offset) != 0 {
      var rest := Walk(b, offset + U32At(b, offset), l);
      assert done + ([offset] + rest) == (done + [offset]) + rest;
    }
  }

  /** What holds of the scan's variables before each record; `more` once the last link is 0. */
  ghost predicate Scan(b: seq<byte>, cur: seq<byte>, l: Layout, visible: Name -> bool, done: seq<nat>,
                       offset: nat, lastKept: Option<nat>, n: nat, more: bool) {
    && GoodLinks(b, l) && done <= Walk(b, 0, l) && offset < 0x1_0000_0000
    && (if more then Split(b, l, done, offset) else done == Walk(b, 0, l))
    && var ks := KeptOf(b, l, visible, done);
    && cur == Relink(b, ks) && n == |ks|
    && lastKept == if n == 0 then None else Some(ks[n - 1])
  }

  lemma ScanStarts(b: seq<byte>, l: Layout, visible: Name -> bool)
    requires GoodLinks(b, l)
    ensures Scan(b, b, l, visible, [], 0, None, 0, true)
  {
    hide Walk, Linked;
    assert [] + Walk(b, 0, l) == Walk(b, 0, l);
  }

  lemma ScanStep(b: seq<byte>, cur: seq<byte>, l: Layout, visible: Name -> bool, done: seq<nat>,
                 offset: nat, lastKept: Option<nat>, n: nat)
    requires Scan(b, cur, l, visible, done, offset, lastKept, n, true) && Fits(cur, offset, l)
    ensures |cur| == |b| && offset + 4 <= |b|
    ensures var next, shown := U32At(cur, offset), visible(NameAt(cur, offset, l));
            && (lastKept.Some? ==> lastKept.value + 4 <= |b| && 0 <= offset - lastKept.value < 0x1_0000_0000)
            && offset + next < 0x1_0000_0000
            && var after := if shown && lastKept.Some? then PutU32(cur, lastKept.value, offset - lastKept.value) else cur;
            Scan(b, after, l, visible, done + [offset], offset + next,
                 if shown then Some(offset) else lastKept, if shown then n + 1 else n, next != 0)
  {
    hide *;
    ScanParts(b, cur, l, visible, done, offset, lastKept, n, true);
    var ks := KeptOf(b, l, visible, done);
    SameFits(cur, b, offset, l);
    DonePrefix(b, l, done, offset);
    RecordAhead(b, l, visible, done, offset);
    TakeRecord(b, l, visible, done, offset);
    NextRecord(b, l, done, offset);
    if ks != [] {
      KeptBehind(b, l, visible, done, offset, |ks| - 1);
    }
    var next, shown := U32At(cur, offset), visible(NameAt(cur, offset, l));
    if shown {
      RelinkMore(b, ks, offset);
    }
    var after := if shown && lastKept.Some? then PutU32(cur, lastKept.value, offset - lastKept.value) else cur;
    ScanParts(b, after, l, visible, done + [offset], offset + next,
              if shown then Some(offset) else lastKept, if shown then n + 1 else n, next != 0);
  }

  lemma ScanParts(b: seq<byte>, cur: seq<byte>, l: Layout, visible: Name -> bool, done: seq<nat>,
                  offset: nat, lastKept: Option<nat>, n: nat, more: bool)
    ensures Scan(b, cur, l, visible, done, offset, lastKept, n, more) <==>
      && GoodLinks(b, l) && done <= Walk(b, 0, l) && offset < 0x1_0000_0000
      && (if more then Split(b, l, done, offset) else done == Walk(b, 0, l))
      && var ks := KeptOf(b, l, visible, done);
      && cur == Relink(b, ks) && n == |ks|
      && lastKept == if n == 0 then None else Some(ks[n - 1])
  {
    hide Walk, Linked, Split, KeptOf, Relink, GoodLinks;
  }

  lemma SameFits(a: seq<byte>, b: seq<byte>, o: nat, l: Layout)
    requires |a| == |b|
    ensures Fits(a, o, l) == Fits(b, o, l) && (Fits(a, o, l) ==> o + 4 <= |a|)
  {}

  lemma ScanEnds(b: seq<byte>, cur: seq<byte>, l: Layout, visible: Name -> bool, done: seq<nat>,
                 offset: nat, lastKept: Option<nat>, n: nat, more: bool)
    requires Scan(b, cur, l, visible, done, offset, lastKept, n, more) && |cur| == |b|
    requires !(more && Fits(cur, offset, l))
    ensures Links(b, Kept(b, l, visible)) && n == |Visible(Listed(b, l), visible)|
    ensures lastKept.Some? ==> lastKept.value + 4 <= |b|
    ensures Relinked(b, Kept(b, l, visible)) == if lastKept.Some? then PutU32(cur, lastKept.value, 0) else cur
  {
    hide *;
    ScanParts(b, cur, l, visible, done, offset, lastKept, n, more);
    SameFits(cur, b, offset, l);
    if more {
      WalkOver(b, l, done, offset);
    }
    KeptOfAll(b, l, visible);
    KeptCount(b, l, visible);
    EndLink(b, Kept(b, l, visible));
  }

  lemma WalkOver(b: seq<byte>, l: Layout, done: seq<nat>, offset: nat)
    requires Split(b, l, done, offset) && !Fits(b, offset, l)
    ensures done == Walk(b, 0, l)
  {
    hide Linked, Fits;
    assert done + [] == done;
  }

  lemma KeptOfAll(b: seq<byte>, l: Layout, visible: Name -> bool)
    requires GoodLinks(b, l)
    ensures KeptOf(b, l, visible, Walk(b, 0, l)) == Kept(b, l, visible)
  {
    hide Linked, Fits, Keep, Walk;
    FrontLinks(b, l, visible, Walk(b, 0, l));
  }

  lemma KeptCount(b: seq<byte>, l: Layout, visible: Name -> bool)
    ensures |Kept(b, l, visible)| == |Visible(Listed(b, l), visible)|
  {
    WalkFits(b, 0, l);
    KeepsVisible(b, Walk(b, 0, l), l, visible);
    assert |NamesAt(b, Kept(b, l, visible), l)| == |Kept(b, l, visible)|;
  }

  lemma EndLink(b: seq<byte>, ks: seq<nat>)
    requires Links(b, ks)
    ensures ks != [] ==> ks[|ks| - 1] + 4 <= |b|
    ensures Relinked(b, ks) == if ks == [] then Relink(b, ks) else PutU32(Relink(b, ks), ks[|ks| - 1], 0)
  {
    hide PutU32;
  }

  /** The walk over a buffer whose record layout is known. */
  method FilterChain(buffer: array<byte>, l: Layout, visible: Name -> bool) returns (n: nat)
    requires GoodLinks(buffer[..], l)
    modifies buffer
    ensures Links(old(buffer[..]), Kept(old(buffer[..]), l, visible))
    ensures n == |Visible(Listed(old(buffer[..]), l), visible)|
    ensures buffer[..] == Relinked(old(buffer[..]), Kept(old(buffer[..]), l, visible))
  {
    hide *;
    ghost var b := buffer[..];
    ghost var done: seq<nat> := [];
    var offset: nat, lastKept: Option<nat>, more := 0, None, true;
    n := 0;
    ScanStarts(b, l, visible);
    while more && Fits(buffer[..], offset, l)
      invariant |b| == buffer.Length && Scan(b, buffer[..], l, visible, done, offset, lastKept, n, more)
      decreases more, |b| - offset
    {
      ghost var cur := buffer[..];
      ScanStep(b, cur, l, visible, done, offset, lastKept, n);
      var next := U32At(buffer[..], offset);
      if visible(NameAt(buffer[..], offset, l)) {
        if lastKept.Some? {
          StoreU32(buffer, lastKept.value, offset - lastKept.value);
        }
        lastKept := Some(offset);
        n := n + 1;
      }
      done := done + [offset];
      if next == 0 {
        more := false;
      }
      offset := offset + next;
    }
    ScanEnds(b, buffer[..], l, visible, done, offset, lastKept, n, more);
    if lastKept.Some? {
      StoreU32(buffer, lastKept.value, 0);
    }
  }

  /** Keeps the visible records of a packed listing, in place. An information class whose
      layout is not known leaves the buffer untouched and gives `None` (`SIZE_MAX`). */
  method FilterDirectoryInformation(buffer: array<byte>, infoClass: nat, visible: Name -> bool) returns (kept: Option<nat>)
    requires TryGetDirInfoLayout(infoClass).Some? ==> GoodLinks(buffer[..], TryGetDirInfoLayout(infoClass).value)
    modifies buffer
    ensures match TryGetDirInfoLayout(infoClass) {
              case None => kept == None && buffer[..] == old(buffer[..])
              case Some(l) =>
                var b := old(buffer[..]);
                && kept == Some(|Visible(Listed(b, l), visible)|)
                && Links(b, Kept(b, l, visible))
                && buffer[..] == Relinked(b, Kept(b, l, visible))
            }
  {
    hide *;
    var layout := TryGetDirInfoLayout(infoClass);
    if layout == None {
      return None;
    }
    var n := FilterChain(buffer, layout.value, visible);
    return Some(n);
  }

  /** Where the loop goes next: the sum wraps at 32 bits. */
  function WrappedStep(b: seq<byte>, o: nat): nat
    requires o + 4 <= |b|
  {
    (o + U32At(b, o)) % 0x1_0000_0000
  }

  const LOOPING: seq<byte> := [12, 0, 0, 0, 0, 0, 0, 0, 0, 0, 0, 0, 0xF4, 0xFF, 0xFF, 0xFF, 0, 0, 0, 0, 0, 0, 0, 0]

  /** Why links must not wrap: in these 24 bytes both records of a names-only listing fit, and
      the link of the second one leads back to the first. */
  lemma WrappingLinksLoop()
    ensures var l := Layout(8, 12);
            && TryGetDirInfoLayout(12) == Some(l) && Fits(LOOPING, 0, l) && Fits(LOOPING, 12, l)
            && WrappedStep(LOOPING, 0) == 12 && WrappedStep(LOOPING, 12) == 0
  {
    assert |LOOPING| == 24;
    assert LOOPING[0] == 12 && LOOPING[1] == 0 && LOOPING[2] == 0 && LOOPING[3] == 0;
    assert LOOPING[12] == 0xF4 && LOOPING[13] == 0xFF && LOOPING[14] == 0xFF && LOOPING[15] == 0xFF;
  }
}
