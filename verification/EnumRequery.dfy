/** Filtering a whole directory scan: a batch with nothing visible is never handed back. */
module EnumRequery {
  import opened Optional
  import opened Words
  import opened DirRecords
  import opened EnumFilter

  type NtStatus = u32

  predicate NtSuccess(s: NtStatus) {
    s < 0x8000_0000
  }

  /** `SL_RESTART_SCAN`. */
  const SL_RESTART_SCAN: bv32 := 1

  predicate Restarts(flags: bv32) {
    flags & SL_RESTART_SCAN != 0
  }

  lemma RestartBit(flags: bv32)
    ensures Restarts(flags) <==> flags & 1 == 1
  {}

  /** The operating system's scan of a directory: a cursor over finitely many batches, then an
      error status such as `STATUS_NO_MORE_FILES`. */
  class DirectoryScan {
    const batches: seq<seq<byte>>
    const exhausted: NtStatus
    var position: nat

    constructor (batches: seq<seq<byte>>, exhausted: NtStatus)
      ensures this.batches == batches && this.exhausted == exhausted && position == 0
    {
      this.batches, this.exhausted, position := batches, exhausted, 0;
    }

    method Query(into: array<byte>, flags: bv32) returns (status: NtStatus)
      requires forall b <- batches :: |b| == into.Length
      modifies this`position, into
      ensures var from := if flags & 1 == 1 then 0 else old(position);
              if from < |batches|
              then status == 0 && into[..] == batches[from] && position == from + 1
              else status == exhausted && into[..] == old(into[..]) && position == from
    {
      RestartBit(flags);
      if Restarts(flags) {
        position := 0;
      }
      if position >= |batches| {
        return exhausted;
      }
      var b := batches[position];
      forall i | 0 <= i < into.Length {
        into[i] := b[i];
      }
      assert into[..] == b;
      position := position + 1;
      return 0;
    }
  }

  /** What reaches the caller of each batch that the working buffer receives. */
  function Copied(batches: seq<seq<byte>>, length: nat): (bs: seq<seq<byte>>)
    requires forall b <- batches :: |b| >= length
    ensures |bs| == |batches| && forall i :: 0 <= i < |bs| ==> bs[i] == batches[i][..length]
  {
    seq(|batches|, i requires 0 <= i < |batches| => batches[i][..length])
  }

  predicate AnyVisible(b: seq<byte>, l: Layout, visible: Name -> bool) {
    Visible(Listed(b, l), visible) != []
  }

  /** How many batches at the front have nothing visible. */
  function HiddenBatches(bs: seq<seq<byte>>, l: Layout, visible: Name -> bool): (k: nat)
    ensures k <= |bs|
  {
    if bs == [] || AnyVisible(bs[0], l, visible) then 0 else 1 + HiddenBatches(bs[1..], l, visible)
  }

  lemma {:induction false} HiddenBatchesEnd(bs: seq<seq<byte>>, l: Layout, visible: Name -> bool)
    ensures var k := HiddenBatches(bs, l, visible);
            && (forall i :: 0 <= i < k ==> !AnyVisible(bs[i], l, visible))
            && (k < |bs| ==> AnyVisible(bs[k], l, visible))
  {
    hide AnyVisible;
    if bs != [] && !AnyVisible(bs[0], l, visible) {
      HiddenBatchesEnd(bs[1..], l, visible);
      forall i | 0 <= i < HiddenBatches(bs, l, visible) ensures !AnyVisible(bs[i], l, visible) {
        if i > 0 { assert bs[i] == bs[1..][i - 1]; }
      }
    }
  }

  ghost predicate AllGood(bs: seq<seq<byte>>, l: Layout) {
    forall b <- bs :: GoodChain(b, l)
  }

  lemma {:induction false} HiddenBatchesIs(bs: seq<seq<byte>>, l: Layout, visible: Name -> bool, k: nat)
    requires k <= |bs| && (forall i :: 0 <= i < k ==> !AnyVisible(bs[i], l, visible)) && (k < |bs| ==> AnyVisible(bs[k], l, visible))
    ensures HiddenBatches(bs, l, visible) == k
  {
    hide AnyVisible;
    if k > 0 {
      HiddenBatchesIs(bs[1..], l, visible, k - 1);
    }
  }

  lemma CleansRestart(flags: bv32)
    ensures !Restarts(flags & !SL_RESTART_SCAN)
  {}

  /** One more query, with its result copied to the caller's buffer if that is another one. */
  method Requery(scan: DirectoryScan, info: array<byte>, buffer: array<byte>, queryFlags: bv32) returns (result: NtStatus)
    requires buffer == info || buffer.Length >= info.Length
    requires (forall b <- scan.batches :: |b| == buffer.Length) && !NtSuccess(scan.exhausted)
    modifies scan`position, info, buffer
    ensures var at := old(scan.position);
            if at < |scan.batches|
            then result == 0 && info[..] == scan.batches[at][..info.Length] && scan.position == at + 1
            else result == scan.exhausted && scan.position == at
  {
    CleansRestart(queryFlags);
    RestartBit(queryFlags & !SL_RESTART_SCAN);
    result := scan.Query(buffer, queryFlags & !SL_RESTART_SCAN);
    if buffer != info && NtSuccess(result) {
      forall i | 0 <= i < info.Length {
        info[i] := buffer[i];
      }
    }
  }

  /** The batches a call works on: the one in the buffer, then what the scan still gives. */
  ghost function Ahead(now: seq<byte>, batches: seq<seq<byte>>, at: nat, length: nat): (bs: seq<seq<byte>>)
    requires (forall b <- batches :: |b| >= length) && at <= |batches|
    ensures |bs| == 1 + |batches| - at && bs[0] == now
    ensures forall i :: 1 <= i < |bs| ==> bs[i] == batches[at + i - 1][..length]
  {
    [now] + Copied(batches, length)[at..]
  }

  /** Re-queries until the buffer holds something visible or the scan ends. `info` is the
      caller's buffer and `buffer`, possibly the same, the one handed to the real call. The
      first batch is already in `info`. Restarting is cleared from the flags: otherwise the
      scan would rewind for ever. */
  method ApplyEnumerationFilter(scan: DirectoryScan, info: array<byte>, buffer: array<byte>, infoClass: nat,
                                queryFlags: bv32, visible: Name -> bool, first: NtStatus) returns (result: NtStatus)
    requires buffer == info || buffer.Length >= info.Length
    requires (forall b <- scan.batches :: |b| == buffer.Length) && !NtSuccess(scan.exhausted)
    requires scan.position <= |scan.batches|
    requires match TryGetDirInfoLayout(infoClass) {
               case None => true
               case Some(l) => NtSuccess(first) ==> AllGood(Ahead(info[..], scan.batches, scan.position, info.Length), l)
             }
    modifies scan`position, info, buffer
    ensures first >= 0x8000_0000 || TryGetDirInfoLayout(infoClass) == None
            ==> result == first && info[..] == old(info[..]) && scan.position == old(scan.position)
    ensures first < 0x8000_0000 && TryGetDirInfoLayout(infoClass).Some? ==>
              var l := TryGetDirInfoLayout(infoClass).value;
              var bs := Ahead(old(info[..]), scan.batches, old(scan.position), info.Length);
              var k := HiddenBatches(bs, l, visible);
              if k < |bs|
              then result == (if k == 0 then first else 0) && scan.position == old(scan.position) + k
                   && Links(bs[k], Kept(bs[k], l, visible)) && info[..] == Relinked(bs[k], Kept(bs[k], l, visible))
              else result == scan.exhausted && scan.position == |scan.batches|
  {
    hide Listed, Visible, Kept, Relinked, Links, GoodChain, GoodLinks, HiddenBatches, AnyVisible, Ahead, AllGood, TryGetDirInfoLayout;
    result := first;
    if TryGetDirInfoLayout(infoClass) == None {
      if NtSuccess(result) {
        var kept := FilterDirectoryInformation(info, infoClass, visible);
      }
      return;
    }
    ghost var l := TryGetDirInfoLayout(infoClass).value;
    ghost var start, dropped := scan.position, 0;
    ghost var bs := Ahead(info[..], scan.batches, scan.position, info.Length);
    while NtSuccess(result)
      invariant start <= scan.position <= |scan.batches| && scan.position <= start + dropped
      invariant dropped == 0 ==> info[..] == bs[0] && result == first && scan.position == start
      invariant NtSuccess(result) ==> dropped < |bs| && info[..] == bs[dropped] && scan.position == start + dropped
      invariant NtSuccess(result) && dropped > 0 ==> result == 0
      invariant !NtSuccess(result) && dropped > 0 ==> dropped == |bs| && scan.position == |scan.batches| && result == scan.exhausted
      invariant (dropped > 0 || NtSuccess(result)) ==> NtSuccess(first)
      invariant forall i :: 0 <= i < dropped ==> !AnyVisible(bs[i], l, visible)
      decreases |bs| - dropped
    {
      assert bs[dropped] in bs;
      GoodBatch(bs, l, dropped);
      GoodChainLinks(bs[dropped], l);
      var kept := FilterDirectoryInformation(info, infoClass, visible);
      ShownIffKept(bs[dropped], l, visible);
      if kept.value > 0 {
        HiddenBatchesIs(bs, l, visible, dropped);
        return;
      }
      result := Requery(scan, info, buffer, queryFlags);
      dropped := dropped + 1;
    }
    if NtSuccess(first) {
      HiddenBatchesIs(bs, l, visible, dropped);
    }
  }

  lemma GoodBatch(bs: seq<seq<byte>>, l: Layout, i: nat)
    requires AllGood(bs, l) && i < |bs|
    ensures GoodChain(bs[i], l)
  {}

  lemma ShownIffKept(b: seq<byte>, l: Layout, visible: Name -> bool)
    requires GoodChain(b, l)
    ensures AnyVisible(b, l, visible) <==> |Visible(Listed(b, l), visible)| > 0
  {}

  // ---- A whole scan ----

  /** The buffers that successive calls hand back over a scan that gives these batches. */
  ghost function HandedBack(bs: seq<seq<byte>>, l: Layout, visible: Name -> bool): (hs: seq<seq<byte>>)
    requires AllGood(bs, l)
    decreases |bs|
  {
    var k := HiddenBatches(bs, l, visible);
    if k == |bs| then []
    else
      KeptLinks(bs[k], l, visible);
      [Relinked(bs[k], Kept(bs[k], l, visible))] + HandedBack(bs[k + 1..], l, visible)
  }

  /** The names read from the start of each buffer, one buffer after the other. */
  ghost function NamesOf(bs: seq<seq<byte>>, l: Layout): (ns: seq<Name>) {
    if bs == [] then [] else Listed(bs[0], l) + NamesOf(bs[1..], l)
  }

  lemma {:induction false} VisibleConcat(a: seq<Name>, b: seq<Name>, visible: Name -> bool)
    ensures Visible(a + b, visible) == Visible(a, visible) + Visible(b, visible)
  {
    if b == [] {
      assert a + b == a;
    } else {
      assert (a + b)[..|a + b| - 1] == a + b[..|b| - 1];
      VisibleConcat(a, b[..|b| - 1], visible);
    }
  }

  lemma {:induction false} VisibleTwice(ns: seq<Name>, visible: Name -> bool)
    ensures Visible(Visible(ns, visible), visible) == Visible(ns, visible)
  {
    if ns != [] {
      var front := Visible(ns[..|ns| - 1], visible);
      VisibleTwice(ns[..|ns| - 1], visible);
      assert (front + [ns[|ns| - 1]])[..|front|] == front;
    }
  }

  lemma {:induction false} NoneVisibleLeading(ns: seq<Name>, visible: Name -> bool)
    ensures Visible(Leading(ns, visible), visible) == []
  {
    if ns != [] && !visible(ns[0]) {
      NoneVisibleLeading(ns[1..], visible);
      VisibleConcat([ns[0]], Leading(ns[1..], visible), visible);
    }
  }

  /** What one call hands back: the visible names of its batch after the hidden ones that come
      before the first of them. */
  lemma HandedBuffer(b: seq<byte>, l: Layout, visible: Name -> bool)
    requires GoodChain(b, l) && AnyVisible(b, l, visible)
    ensures Links(b, Kept(b, l, visible))
    ensures var ns := Listed(Relinked(b, Kept(b, l, visible)), l);
            && ns == Leading(Listed(b, l), visible) + Visible(Listed(b, l), visible)
            && Visible(ns, visible) == Visible(Listed(b, l), visible)
  {
    hide Listed, Visible, Leading, Kept, Relinked;
    FilterFromFirst(b, l, visible);
    FilterFromStart(b, l, visible);
    var ns := Listed(b, l);
    VisibleConcat(Leading(ns, visible), Visible(ns, visible), visible);
    NoneVisibleLeading(ns, visible);
    VisibleTwice(ns, visible);
  }

  /** Every batch with something visible starts with it. */
  ghost predicate HeadsVisible(bs: seq<seq<byte>>, l: Layout, visible: Name -> bool) {
    forall b <- bs :: AnyVisible(b, l, visible) ==> Listed(b, l) != [] && visible(Listed(b, l)[0])
  }

  lemma {:induction false} SkipHidden(bs: seq<seq<byte>>, l: Layout, visible: Name -> bool, k: nat)
    requires k <= HiddenBatches(bs, l, visible)
    ensures Visible(NamesOf(bs, l), visible) == Visible(NamesOf(bs[k..], l), visible)
    ensures HeadsVisible(bs, l, visible) <==> HeadsVisible(bs[k..], l, visible)
  {
    hide Listed, AnyVisible, Visible, HeadsVisible;
    if k == 0 {
      assert bs[0..] == bs;
    } else {
      SkipHidden(bs[1..], l, visible, k - 1);
      assert bs[1..][k - 1..] == bs[k..];
      VisibleConcat(Listed(bs[0], l), NamesOf(bs[1..], l), visible);
      HeadsVisibleCons(bs, l, visible);
      NotShown(bs[0], l, visible);
    }
  }

  lemma NotShown(b: seq<byte>, l: Layout, visible: Name -> bool)
    requires !AnyVisible(b, l, visible)
    ensures Visible(Listed(b, l), visible) == []
  {}

  lemma HeadsVisibleCons(bs: seq<seq<byte>>, l: Layout, visible: Name -> bool)
    requires bs != []
    ensures HeadsVisible(bs, l, visible)
            <==> (AnyVisible(bs[0], l, visible) ==> Listed(bs[0], l) != [] && visible(Listed(bs[0], l)[0]))
                 && HeadsVisible(bs[1..], l, visible)
  {
    hide Listed, AnyVisible;
    assert bs == [bs[0]] + bs[1..];
  }

  /** The first call of a scan, and the rest. */
  lemma HandedStep(bs: seq<seq<byte>>, l: Layout, visible: Name -> bool) returns (h: seq<byte>, rest: seq<seq<byte>>)
    requires AllGood(bs, l) && HiddenBatches(bs, l, visible) < |bs|
    ensures var k := HiddenBatches(bs, l, visible);
            && AllGood(rest, l) && |rest| < |bs| && rest == bs[k..][1..]
            && HandedBack(bs, l, visible) == [h] + HandedBack(rest, l, visible)
            && NamesOf(HandedBack(bs, l, visible), l) == Listed(h, l) + NamesOf(HandedBack(rest, l, visible), l)
            && NamesOf(bs[k..], l) == Listed(bs[k], l) + NamesOf(rest, l)
            && Listed(h, l) == Leading(Listed(bs[k], l), visible) + Visible(Listed(bs[k], l), visible)
            && Visible(Listed(h, l), visible) == Visible(Listed(bs[k], l), visible) != []
  {
    hide Listed, Visible, Leading, Kept, Relinked, GoodChain, NamesOf, AnyVisible, HiddenBatches;
    var k := HiddenBatches(bs, l, visible);
    HiddenBatchesEnd(bs, l, visible);
    ShownBatch(bs[k], l, visible);
    rest := bs[k + 1..];
    assert bs[k..] == [bs[k]] + rest && bs[k] in bs;
    HandedBuffer(bs[k], l, visible);
    h := Relinked(bs[k], Kept(bs[k], l, visible));
    NamesCons(h, HandedBack(rest, l, visible), l);
    NamesCons(bs[k], rest, l);
  }

  lemma ShownBatch(b: seq<byte>, l: Layout, visible: Name -> bool)
    requires AnyVisible(b, l, visible)
    ensures Visible(Listed(b, l), visible) != []
  {}

  lemma NamesCons(b: seq<byte>, bs: seq<seq<byte>>, l: Layout)
    ensures NamesOf([b] + bs, l) == Listed(b, l) + NamesOf(bs, l)
  {
    hide Listed;
    assert ([b] + bs)[1..] == bs;
  }

  /** Over a whole scan each visible entry is delivered exactly once and in order, and no
      buffer that is handed back has nothing visible in it. */
  lemma {:induction false} WholeScan(bs: seq<seq<byte>>, l: Layout, visible: Name -> bool)
    requires AllGood(bs, l)
    ensures Visible(NamesOf(HandedBack(bs, l, visible), l), visible) == Visible(NamesOf(bs, l), visible)
    ensures forall h <- HandedBack(bs, l, visible) :: AnyVisible(h, l, visible)
    decreases |bs|
  {
    hide Listed, Visible, Leading, GoodChain, AllGood, HandedBack;
    var k := HiddenBatches(bs, l, visible);
    SkipHidden(bs, l, visible, k);
    if k < |bs| {
      var h, rest := HandedStep(bs, l, visible);
      WholeScan(rest, l, visible);
      VisibleConcat(Listed(bs[k], l), NamesOf(rest, l), visible);
      VisibleConcat(Listed(h, l), NamesOf(HandedBack(rest, l, visible), l), visible);
    } else {
      NothingHanded(bs, l, visible);
    }
  }

  lemma NothingHanded(bs: seq<seq<byte>>, l: Layout, visible: Name -> bool)
    requires AllGood(bs, l) && HiddenBatches(bs, l, visible) == |bs|
    ensures bs[|bs|..] == [] && HandedBack(bs, l, visible) == []
  {}

  lemma LeadingEmpty(ns: seq<Name>, visible: Name -> bool)
    requires ns != []
    ensures Leading(ns, visible) == [] <==> visible(ns[0])
  {}

  /** Hidden entries leak exactly where a batch has them before its first visible entry: the
      caller reads the filtered listing and nothing else iff every batch with something visible
      starts with it. */
  lemma {:induction false} ScanExact(bs: seq<seq<byte>>, l: Layout, visible: Name -> bool)
    requires AllGood(bs, l)
    ensures NamesOf(HandedBack(bs, l, visible), l) == Visible(NamesOf(bs, l), visible) <==> HeadsVisible(bs, l, visible)
    ensures |NamesOf(HandedBack(bs, l, visible), l)| >= |Visible(NamesOf(bs, l), visible)|
    ensures |NamesOf(HandedBack(bs, l, visible), l)| == |Visible(NamesOf(bs, l), visible)| ==> HeadsVisible(bs, l, visible)
    decreases |bs|
  {
    hide Listed, Visible, Leading, GoodChain, AllGood, HandedBack, HeadsVisible;
    var k := HiddenBatches(bs, l, visible);
    SkipHidden(bs, l, visible, k);
    if k < |bs| {
      var h, rest := HandedStep(bs, l, visible);
      ScanExact(rest, l, visible);
      VisibleConcat(Listed(bs[k], l), NamesOf(rest, l), visible);
      SomethingListed(bs[k], l, visible);
      LeadingEmpty(Listed(bs[k], l), visible);
      HeadsVisibleCons(bs[k..], l, visible);
    } else {
      NothingHanded(bs, l, visible);
      NoHeads(l, visible);
    }
  }

  lemma SomethingListed(b: seq<byte>, l: Layout, visible: Name -> bool)
    requires AnyVisible(b, l, visible)
    ensures Listed(b, l) != []
  {
    hide Listed;
  }

  lemma NoHeads(l: Layout, visible: Name -> bool)
    ensures HeadsVisible([], l, visible) && Visible(NamesOf([], l), visible) == []
  {}

  // ---- The names a scan hands back ----

  /** The names read from the buffers of a scan: of each batch with something visible, the
      hidden names before the first visible one and the visible names. */
  ghost function Delivered(bs: seq<seq<byte>>, l: Layout, visible: Name -> bool): seq<Name> {
    if bs == [] then []
    else
      (if AnyVisible(bs[0], l, visible) then Leading(Listed(bs[0], l), visible) + Visible(Listed(bs[0], l), visible) else [])
      + Delivered(bs[1..], l, visible)
  }

  lemma {:induction false} DeliversNothing(bs: seq<seq<byte>>, l: Layout, visible: Name -> bool, k: nat)
    requires k <= HiddenBatches(bs, l, visible)
    ensures Delivered(bs, l, visible) == Delivered(bs[k..], l, visible)
  {
    hide AnyVisible;
    if k == 0 {
      assert bs[0..] == bs;
    } else {
      DeliversNothing(bs[1..], l, visible, k - 1);
      assert bs[1..][k - 1..] == bs[k..];
    }
  }

  lemma {:induction false} HandedNames(bs: seq<seq<byte>>, l: Layout, visible: Name -> bool)
    requires AllGood(bs, l)
    ensures NamesOf(HandedBack(bs, l, visible), l) == Delivered(bs, l, visible)
    decreases |bs|
  {
    hide Listed, Visible, Leading, GoodChain, AllGood, HandedBack, AnyVisible, NamesOf;
    var k := HiddenBatches(bs, l, visible);
    DeliversNothing(bs, l, visible, k);
    HiddenBatchesEnd(bs, l, visible);
    if k < |bs| {
      var h, rest := HandedStep(bs, l, visible);
      HandedNames(rest, l, visible);
    } else {
      NothingHanded(bs, l, visible);
      NoNames(l);
    }
  }

  lemma NoNames(l: Layout)
    ensures NamesOf([], l) == []
  {}

  /** A hidden name that leaks: it comes before the first visible one of its batch. */
  ghost predicate Leaks(bs: seq<seq<byte>>, l: Layout, visible: Name -> bool, n: Name) {
    exists b <- bs :: AnyVisible(b, l, visible) && n in Leading(Listed(b, l), visible)
  }

  lemma {:induction false} LeadingHas(ns: seq<Name>, visible: Name -> bool, n: Name)
    requires n in Leading(ns, visible)
    ensures n in ns && !visible(n)
  {
    if ns != [] && !visible(ns[0]) && n != ns[0] {
      LeadingHas(ns[1..], visible, n);
    }
  }

  /** What is delivered is what is visible and what leaks. */
  lemma {:induction false} DeliveredHas(bs: seq<seq<byte>>, l: Layout, visible: Name -> bool, n: Name)
    ensures n in Delivered(bs, l, visible) <==> (n in NamesOf(bs, l) && visible(n)) || Leaks(bs, l, visible, n)
    ensures n in Delivered(bs, l, visible) ==> n in NamesOf(bs, l)
  {
    hide Listed, Visible, Leading, Leaks;
    if bs != [] {
      DeliveredHas(bs[1..], l, visible, n);
      LeaksCons(bs, l, visible, n);
      VisibleHas(Listed(bs[0], l), visible, n);
      if n in Leading(Listed(bs[0], l), visible) { LeadingHas(Listed(bs[0], l), visible, n); }
    } else {
      NoLeaks(l, visible, n);
    }
  }

  lemma LeaksCons(bs: seq<seq<byte>>, l: Layout, visible: Name -> bool, n: Name)
    requires bs != []
    ensures Leaks(bs, l, visible, n)
            <==> (AnyVisible(bs[0], l, visible) && n in Leading(Listed(bs[0], l), visible)) || Leaks(bs[1..], l, visible, n)
  {
    hide AnyVisible, Leading, Listed;
    assert bs == [bs[0]] + bs[1..];
  }

  lemma NoLeaks(l: Layout, visible: Name -> bool, n: Name)
    ensures !Leaks([], l, visible, n)
  {}

  /** With `ReturnSingleEntry` nothing leaks. */
  lemma SingleEntriesExact(bs: seq<seq<byte>>, l: Layout, visible: Name -> bool)
    requires AllGood(bs, l) && forall b <- bs :: |Listed(b, l)| <= 1
    ensures NamesOf(HandedBack(bs, l, visible), l) == Visible(NamesOf(bs, l), visible)
  {
    hide Listed, HandedBack, NamesOf;
    forall b <- bs | AnyVisible(b, l, visible) ensures Listed(b, l) != [] && visible(Listed(b, l)[0]) {
      OneName(Listed(b, l), visible);
    }
    ScanExact(bs, l, visible);
  }

  lemma OneName(ns: seq<Name>, visible: Name -> bool)
    requires Visible(ns, visible) != [] && |ns| <= 1
    ensures ns != [] && visible(ns[0])
  {
    assert ns[..|ns| - 1] == [];
  }

  // ---- One intercepted query ----

  lemma AheadIs(batches: seq<seq<byte>>, from: nat, length: nat)
    requires (forall b <- batches :: |b| == length) && from < |batches|
    ensures Ahead(batches[from], batches, from + 1, length) == batches[from..]
  {
    var bs := Ahead(batches[from], batches, from + 1, length);
    forall i | 0 <= i < |bs| ensures bs[i] == batches[from..][i] {
      assert batches[from + i] in batches;
    }
  }

  lemma LinksKept(b: seq<byte>, l: Layout, visible: Name -> bool)
    requires GoodChain(b, l)
    ensures Links(b, Kept(b, l, visible))
  {
    hide *;
    KeptLinks(b, l, visible);
  }

  /** The buffer that the next call hands back, if any, and the batch after it. */
  ghost function NextHanded(batches: seq<seq<byte>>, from: nat, l: Layout, visible: Name -> bool): (r: (Option<seq<byte>>, nat))
    requires AllGood(batches, l) && from <= |batches|
    ensures r.1 <= |batches|
  {
    var at := from + HiddenBatches(batches[from..], l, visible);
    if at == |batches| then (None, at)
    else
      LinksKept(batches[at], l, visible);
      (Some(Relinked(batches[at], Kept(batches[at], l, visible))), at + 1)
  }

  lemma GoodRest(bs: seq<seq<byte>>, l: Layout, from: nat)
    requires AllGood(bs, l) && from <= |bs|
    ensures AllGood(bs[from..], l)
  {}

  /** Call after call this gives the buffers of `HandedBack`. */
  lemma HandedInTurn(batches: seq<seq<byte>>, from: nat, l: Layout, visible: Name -> bool)
    requires AllGood(batches, l) && from <= |batches|
    ensures var (h, next) := NextHanded(batches, from, l, visible);
            && AllGood(batches[from..], l) && AllGood(batches[next..], l)
            && HandedBack(batches[from..], l, visible) == if h == None then [] else [h.value] + HandedBack(batches[next..], l, visible)
  {
    hide Kept, Relinked, GoodChain, HiddenBatches, Links, AllGood;
    var (h, next) := NextHanded(batches, from, l, visible);
    GoodRest(batches, l, from);
    GoodRest(batches, l, next);
    var k := HiddenBatches(batches[from..], l, visible);
    if k < |batches[from..]| {
      assert batches[from..][k + 1..] == batches[next..] && batches[from..][k] == batches[from + k];
    }
  }

  /** The same without a filter. */
  ghost function NextBatch(batches: seq<seq<byte>>, from: nat): (r: (Option<seq<byte>>, nat))
    requires from <= |batches|
    ensures r.1 <= |batches|
  {
    if from == |batches| then (None, from) else (Some(batches[from]), from + 1)
  }

  /** What the next call reads: filtered, if the record layout is known. */
  ghost function NextRead(batches: seq<seq<byte>>, from: nat, infoClass: nat, visible: Name -> bool): (r: (Option<seq<byte>>, nat))
    requires TryGetDirInfoLayout(infoClass).Some? ==> AllGood(batches, TryGetDirInfoLayout(infoClass).value)
    requires from <= |batches|
    ensures r.1 <= |batches|
  {
    match TryGetDirInfoLayout(infoClass)
    case None => NextBatch(batches, from)
    case Some(l) => NextHanded(batches, from, l, visible)
  }

  /** Query the real scan, then filter. */
  method QueryFiltered(scan: DirectoryScan, info: array<byte>, infoClass: nat, queryFlags: bv32,
                       visible: Name -> bool) returns (result: NtStatus)
    requires TryGetDirInfoLayout(infoClass).Some? ==> AllGood(scan.batches, TryGetDirInfoLayout(infoClass).value)
    requires (forall b <- scan.batches :: |b| == info.Length) && !NtSuccess(scan.exhausted) && scan.position <= |scan.batches|
    modifies scan`position, info
    ensures var from := if Restarts(queryFlags) then 0 else old(scan.position);
            var (h, next) := NextRead(scan.batches, from, infoClass, visible);
            scan.position == next && if h == None then result == scan.exhausted else result == 0 && info[..] == h.value
  {
    hide *;
    Successful();
    RestartBit(queryFlags);
    ghost var from := if Restarts(queryFlags) then 0 else scan.position;
    ReadIs(scan.batches, from, infoClass, visible);
    result := scan.Query(info, queryFlags);
    if NtSuccess(result) {
      AheadIs(scan.batches, from, info.Length);
      result := ApplyEnumerationFilter(scan, info, info, infoClass, queryFlags, visible, result);
    }
  }

  /** What the next call reads, with the filter on or off. */
  ghost function NextSeen(batches: seq<seq<byte>>, from: nat, infoClass: nat, visible: Name -> bool, filtered: bool): (r: (Option<seq<byte>>, nat))
    requires TryGetDirInfoLayout(infoClass).Some? ==> AllGood(batches, TryGetDirInfoLayout(infoClass).value)
    requires from <= |batches|
    ensures r.1 <= |batches|
  {
    if filtered then NextRead(batches, from, infoClass, visible) else NextBatch(batches, from)
  }

  method QuerySeen(scan: DirectoryScan, info: array<byte>, infoClass: nat, queryFlags: bv32,
                   visible: Name -> bool, filtered: bool) returns (result: NtStatus)
    requires TryGetDirInfoLayout(infoClass).Some? ==> AllGood(scan.batches, TryGetDirInfoLayout(infoClass).value)
    requires (forall b <- scan.batches :: |b| == info.Length) && !NtSuccess(scan.exhausted) && scan.position <= |scan.batches|
    modifies scan`position, info
    ensures var from := if Restarts(queryFlags) then 0 else old(scan.position);
            var (h, next) := NextSeen(scan.batches, from, infoClass, visible, filtered);
            scan.position == next && if h == None then result == scan.exhausted else result == 0 && info[..] == h.value
  {
    hide TryGetDirInfoLayout, NextRead, AllGood, Restarts, NtSuccess;
    RestartBit(queryFlags);
    if filtered {
      result := QueryFiltered(scan, info, infoClass, queryFlags, visible);
    } else {
      result := scan.Query(info, queryFlags);
    }
  }

  lemma ReadIs(batches: seq<seq<byte>>, from: nat, infoClass: nat, visible: Name -> bool)
    requires TryGetDirInfoLayout(infoClass).Some? ==> AllGood(batches, TryGetDirInfoLayout(infoClass).value)
    requires from <= |batches|
    ensures TryGetDirInfoLayout(infoClass) == None ==>
              NextRead(batches, from, infoClass, visible) == if from == |batches| then (None, from) else (Some(batches[from]), from + 1)
    ensures TryGetDirInfoLayout(infoClass).Some? ==>
              var l := TryGetDirInfoLayout(infoClass).value;
              var k := HiddenBatches(batches[from..], l, visible);
              && AllGood(batches[from..], l) && k <= |batches[from..]|
              && (k < |batches[from..]| ==> GoodChain(batches[from..][k], l) && Links(batches[from..][k], Kept(batches[from..][k], l, visible)))
              && NextRead(batches, from, infoClass, visible)
                 == if k == |batches[from..]| then (None, |batches|)
                    else (Some(Relinked(batches[from..][k], Kept(batches[from..][k], l, visible))), from + k + 1)
  {
    hide TryGetDirInfoLayout, NextHanded, AllGood, HiddenBatches, Kept, Relinked, Links, GoodChain;
    if TryGetDirInfoLayout(infoClass).Some? {
      NextIs(batches, from, TryGetDirInfoLayout(infoClass).value, visible);
      GoodRest(batches, TryGetDirInfoLayout(infoClass).value, from);
    }
  }

  lemma NextIs(batches: seq<seq<byte>>, from: nat, l: Layout, visible: Name -> bool)
    requires AllGood(batches, l) && from <= |batches|
    ensures var k := HiddenBatches(batches[from..], l, visible);
            && (k < |batches[from..]| ==> GoodChain(batches[from..][k], l) && Links(batches[from..][k], Kept(batches[from..][k], l, visible)))
            && NextHanded(batches, from, l, visible)
               == if k == |batches[from..]| then (None, |batches|)
                  else (Some(Relinked(batches[from..][k], Kept(batches[from..][k], l, visible))), from + k + 1)
  {
    hide Kept, Relinked, GoodChain, HiddenBatches, Links;
    var k := HiddenBatches(batches[from..], l, visible);
    if k < |batches[from..]| {
      assert batches[from..][k] == batches[from + k];
      LinksKept(batches[from + k], l, visible);
    }
  }

  lemma Successful()
    ensures NtSuccess(0)
  {}
}
