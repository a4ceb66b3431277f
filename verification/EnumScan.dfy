/** Whole scans of a directory through the query hook: filter, splice and reporting together. */
module EnumScan {
  import opened Optional
  import opened Words
  import opened DirRecords
  import opened EnumFilter
  import opened EnumRequery
  import opened EnumCursor

  /** Which parts of the hooks are on: the input filter, the write overlay, reporting. */
  datatype Hooks = Hooks(filter: bool, overlay: bool, reporting: bool)

  /** A directory as the operating system lists it to one handle in buffers of `length` bytes,
      and what the hooks know of it. */
  datatype Scan = Scan(batches: seq<seq<byte>>, exhausted: NtStatus, infoClass: nat, length: nat,
                       visible: Name -> bool, dir: Directory, compare: Compare, hooks: Hooks)
  {
    ghost predicate Valid() {
      TryGetDirInfoLayout(infoClass).Some? && AllGood(batches, TryGetDirInfoLayout(infoClass).value)
      && exhausted in {0x8000_0006, 0xC000_000F}
    }

    function Layout(): Layout
      requires Valid()
    {
      TryGetDirInfoLayout(infoClass).value
    }
  }

  /** The real scan's cursor, the handle's overlay state, and whether its enumeration has been
      reported. */
  datatype State = State(position: nat, handle: Handle, reported: bool)

  const NewHandle := Handle(false, 0, [], [], false)
  const NewState := State(0, NewHandle, false)

  /** What the caller may vary from query to query. */
  datatype Ask = Ask(single: bool, restart: bool, pattern: Option<Pattern>)

  function QueryOf(sc: Scan, a: Ask, status: NtStatus): Query {
    Query(sc.dir, sc.infoClass, sc.length, a.single, a.restart, status)
  }

  /** The handle after a query that gave `status`, and the names spliced in: a reported handle
      is passed through. */
  function Spliced(sc: Scan, s: State, a: Ask, status: NtStatus): (r: (Handle, seq<Name>))
    requires s.handle.Valid()
    ensures r.0.Valid()
  {
    if sc.hooks.overlay && !s.reported then Serve(s.handle, Nt(QueryOf(sc, a, status), a.pattern), sc.compare)
    else (s.handle, [])
  }

  /** One intercepted query: the state after it and the names the caller reads, if it succeeds. */
  ghost function Answer(sc: Scan, s: State, a: Ask): (r: (State, Option<seq<Name>>))
    requires sc.Valid() && s.position <= |sc.batches| && s.handle.Valid()
    ensures r.0.position <= |sc.batches| && r.0.handle.Valid()
  {
    var (b, next) := NextSeen(sc.batches, if a.restart then 0 else s.position, sc.infoClass, sc.visible, sc.hooks.filter && !s.reported);
    var (h, e) := Spliced(sc, s, a, if b == None then sc.exhausted else STATUS_SUCCESS);
    var names := if b.Some? then Some(Listed(b.value, sc.Layout())) else if e != [] then Some(e) else None;
    (State(next, h, s.reported || (sc.hooks.reporting && names.Some?)), names)
  }

  function Read(names: Option<seq<Name>>): seq<Name> {
    if names == None then [] else names.value
  }

  /** The names read by a run of queries, in order. */
  ghost function ReadAll(sc: Scan, s: State, asks: seq<Ask>): (r: (State, seq<Name>))
    requires sc.Valid() && s.position <= |sc.batches| && s.handle.Valid()
    ensures r.0.position <= |sc.batches| && r.0.handle.Valid()
    decreases |asks|
  {
    if asks == [] then (s, [])
    else
      var (t, names) := Answer(sc, s, asks[0]);
      var (u, ns) := ReadAll(sc, t, asks[1..]);
      (u, Read(names) + ns)
  }

  /** The caller asks on until a query fails. */
  ghost predicate ToTheEnd(sc: Scan, s: State, asks: seq<Ask>)
    requires sc.Valid() && s.position <= |sc.batches| && s.handle.Valid()
    decreases |asks|
  {
    asks != [] && var (t, names) := Answer(sc, s, asks[0]);
                  if |asks| == 1 then names == None else names.Some? && ToTheEnd(sc, t, asks[1..])
  }

  // ---- Without reporting ----

  /** What the real queries still give from a batch on, through the filter if it is on. */
  ghost function RealRest(sc: Scan, at: nat, filtered: bool): seq<Name>
    requires sc.Valid() && at <= |sc.batches|
  {
    GoodRest(sc.batches, sc.Layout(), at);
    NamesOf(if filtered then HandedBack(sc.batches[at..], sc.Layout(), sc.visible) else sc.batches[at..], sc.Layout())
  }

  lemma SeenConserves(sc: Scan, from: nat, filtered: bool)
    requires sc.Valid() && from <= |sc.batches|
    ensures var (b, next) := NextSeen(sc.batches, from, sc.infoClass, sc.visible, filtered);
            if b == None then RealRest(sc, from, filtered) == [] && next == |sc.batches|
            else RealRest(sc, from, filtered) == Listed(b.value, sc.Layout()) + RealRest(sc, next, filtered)
  {
    hide Listed, HandedBack, NextHanded, TryGetDirInfoLayout, AllGood;
    var (b, next) := NextSeen(sc.batches, from, sc.infoClass, sc.visible, filtered);
    GoodRest(sc.batches, sc.Layout(), from);
    GoodRest(sc.batches, sc.Layout(), next);
    if filtered {
      HandedInTurn(sc.batches, from, sc.Layout(), sc.visible);
      if b == None {
        NoneHanded(sc.batches, from, sc.Layout(), sc.visible);
      } else {
        NamesCons(b.value, HandedBack(sc.batches[next..], sc.Layout(), sc.visible), sc.Layout());
      }
    } else if b.Some? {
      assert sc.batches[from..] == [b.value] + sc.batches[next..];
      NamesCons(b.value, sc.batches[next..], sc.Layout());
    }
  }

  lemma NoneHanded(bs: seq<seq<byte>>, from: nat, l: Layout, visible: Name -> bool)
    requires AllGood(bs, l) && from <= |bs| && NextHanded(bs, from, l, visible).0 == None
    ensures NextHanded(bs, from, l, visible).1 == |bs|
  {}

  /** Whether the overlay adds to this scan: the entries of a directory that is the overlay's
      alone are in the real listing already. */
  predicate Spliceable(sc: Scan) {
    sc.hooks.overlay && !(sc.dir.named && !sc.dir.isDirectory)
  }

  /** A scan under way: the snapshot has been taken if the overlay adds to it. */
  predicate Going(sc: Scan, s: State) {
    && s.position <= |sc.batches| && s.handle.Valid() && !s.reported
    && if Spliceable(sc) then s.handle.started else s.handle.snapshot == []
  }

  /** What is still to be read. */
  ghost function Rest(sc: Scan, s: State): seq<Name>
    requires sc.Valid() && s.position <= |sc.batches| && s.handle.Valid()
  {
    RealRest(sc, s.position, sc.hooks.filter) + ExtraRest(sc, s)
  }

  ghost function ExtraRest(sc: Scan, s: State): seq<Name>
    requires s.handle.Valid()
  {
    if sc.hooks.overlay then s.handle.Left(sc.compare) else []
  }

  predicate Ongoing(h: Handle, a: Ask) {
    !a.restart && (h.filterSet || a.pattern == None || a.pattern == Some([]))
  }

  predicate Tail(a: seq<Name>, b: seq<Name>) {
    |a| <= |b| && a == b[|b| - |a|..]
  }

  lemma SplicedConserves(sc: Scan, s: State, a: Ask, status: NtStatus)
    requires sc.Valid() && Going(sc, s) && Ongoing(s.handle, a)
    ensures var (h, e) := Spliced(sc, s, a, status);
            && h == s.handle.(cursor := h.cursor) && ExtraRest(sc, s) == e + ExtraRest(sc, State(s.position, h, false))
            && Tail(ExtraRest(sc, State(s.position, h, false)), ExtraRest(sc, s))
            && (status !in {0x8000_0006, 0xC000_000F} ==> e == [])
            && (status in {0x8000_0006, 0xC000_000F} && e == [] ==>
                  ExtraRest(sc, s) == [] || RecordSize(sc.Layout(), ExtraRest(sc, s)[0]) > sc.length)
  {
    hide Matching, Take, SnapshotOf, TryGetDirInfoLayout, AllGood;
    if sc.hooks.overlay {
      var q := QueryOf(sc, a, status);
      if sc.dir.named && !sc.dir.isDirectory {
        NothingLeft(s.handle, sc.compare);
      } else {
        ServeConserves(s.handle, Nt(q, a.pattern), sc.compare);
        if status in {0x8000_0006, 0xC000_000F} { SilentEnd(s.handle, q, sc.compare); }
      }
    }
  }

  lemma NothingLeft(h: Handle, compare: Compare)
    requires h.Valid() && h.snapshot == []
    ensures h.Left(compare) == []
  {}

  /** An answer takes a front part of what is still to be read; it fails only when the real
      queries are done and no overlay entry is left or the next one does not fit. */
  lemma AnswerConserves(sc: Scan, s: State, a: Ask)
    requires sc.Valid() && !sc.hooks.reporting && Going(sc, s) && Ongoing(s.handle, a)
    ensures var (t, names) := Answer(sc, s, a);
            && Going(sc, t) && t.handle == s.handle.(cursor := t.handle.cursor)
            && Rest(sc, s) == Read(names) + Rest(sc, t) && Tail(ExtraRest(sc, t), ExtraRest(sc, s))
            && (names == None ==>
                  && RealRest(sc, s.position, sc.hooks.filter) == []
                  && (ExtraRest(sc, s) == [] || RecordSize(sc.Layout(), ExtraRest(sc, s)[0]) > sc.length))
  {
    hide RealRest, ExtraRest, Spliced, NextSeen, Listed, TryGetDirInfoLayout, AllGood, Tail;
    var (b, next) := NextSeen(sc.batches, s.position, sc.infoClass, sc.visible, sc.hooks.filter);
    SeenConserves(sc, s.position, sc.hooks.filter);
    EndOfBatches(sc, sc.hooks.filter);
    var status := if b == None then sc.exhausted else STATUS_SUCCESS;
    SplicedConserves(sc, s, a, status);
    var (h, e) := Spliced(sc, s, a, status);
    SameExtra(sc, State(s.position, h, false), State(next, h, false));
    SeenKnown(sc, s.position);
    Regroup(if b == None then [] else Listed(b.value, sc.Layout()), RealRest(sc, next, sc.hooks.filter), e, ExtraRest(sc, State(next, h, false)));
  }

  lemma SeenKnown(sc: Scan, from: nat)
    requires sc.Valid()
    ensures TryGetDirInfoLayout(sc.infoClass).Some? && AllGood(sc.batches, TryGetDirInfoLayout(sc.infoClass).value)
  {}

  lemma SameExtra(sc: Scan, s: State, t: State)
    requires s.handle == t.handle && s.handle.Valid()
    ensures ExtraRest(sc, s) == ExtraRest(sc, t)
  {}

  lemma EndOfBatches(sc: Scan, filtered: bool)
    requires sc.Valid()
    ensures RealRest(sc, |sc.batches|, filtered) == []
  {
    assert sc.batches[|sc.batches|..] == [];
  }

  /** One of `x` and `e` is read. */
  lemma Regroup(x: seq<Name>, r: seq<Name>, e: seq<Name>, f: seq<Name>)
    ensures e == [] ==> (x + r) + (e + f) == x + (r + f)
    ensures x == [] && r == [] ==> (x + r) + (e + f) == e + (r + f)
  {
    if e == [] { assert e + f == f; }
  }

  /** Over any run of queries what is read and what is still to be read make up what was to be
      read before: nothing is lost, repeated or out of order. */
  lemma {:induction false} ScanConserves(sc: Scan, s: State, asks: seq<Ask>)
    requires sc.Valid() && !sc.hooks.reporting && Going(sc, s) && forall a <- asks :: Ongoing(s.handle, a)
    ensures var (t, ns) := ReadAll(sc, s, asks);
            Going(sc, t) && t.handle == s.handle.(cursor := t.handle.cursor) && Rest(sc, s) == ns + Rest(sc, t)
    decreases |asks|
  {
    hide Answer, Rest, Scan.Valid, Spliceable, Tail, Read, RealRest, ExtraRest;
    if asks != [] {
      assert asks[0] in asks && forall a <- asks[1..] :: a in asks;
      AnswerConserves(sc, s, asks[0]);
      var (t, names) := Answer(sc, s, asks[0]);
      ScanConserves(sc, t, asks[1..]);
      var (u, ns) := ReadAll(sc, t, asks[1..]);
      assert Read(names) + (ns + Rest(sc, u)) == (Read(names) + ns) + Rest(sc, u);
    } else {
      assert [] + Rest(sc, s) == Rest(sc, s);
    }
  }

  /** Every record that the overlay may add fits the caller's buffer. */
  ghost predicate ExtrasFit(sc: Scan, ns: seq<Name>)
    requires sc.Valid()
  {
    forall n <- ns :: RecordSize(sc.Layout(), n) <= sc.length
  }

  lemma NoneFits(sc: Scan, ns: seq<Name>)
    requires sc.Valid() && ExtrasFit(sc, ns)
    ensures ns == [] || RecordSize(sc.Layout(), ns[0]) <= sc.length
  {
    if ns != [] { assert ns[0] in ns; }
  }

  /** A caller who asks on until a query fails has read everything. */
  lemma {:induction false} ScanReads(sc: Scan, s: State, asks: seq<Ask>)
    requires sc.Valid() && !sc.hooks.reporting && Going(sc, s) && forall a <- asks :: Ongoing(s.handle, a)
    requires ToTheEnd(sc, s, asks) && ExtrasFit(sc, ExtraRest(sc, s))
    ensures ReadAll(sc, s, asks).1 == Rest(sc, s)
    decreases |asks|
  {
    hide Answer, RealRest, ExtraRest, Scan.Valid, Spliceable;
    assert asks[0] in asks && forall a <- asks[1..] :: a in asks;
    AnswerConserves(sc, s, asks[0]);
    var (t, names) := Answer(sc, s, asks[0]);
    if |asks| == 1 {
      assert ReadAll(sc, t, asks[1..]).1 == [];
      NoneFits(sc, ExtraRest(sc, s));
    } else {
      ScanReads(sc, t, asks[1..]);
    }
  }

  // ---- From the first query on ----

  function PatternOf(a: Ask): Pattern {
    if a.pattern == None then [] else a.pattern.value
  }

  /** What the overlay adds to a scan whose first query gives this pattern. */
  function Extra(sc: Scan, pattern: Pattern): seq<Name> {
    if sc.hooks.overlay then Matching(SnapshotOf(sc.dir, sc.compare), pattern, sc.compare) else []
  }

  /** The state of a new handle once the first query has captured its pattern and taken the
      snapshot. */
  function Begin(sc: Scan, a: Ask): State {
    var h := if sc.hooks.overlay then NewHandle.Captured(a.pattern, a.restart) else NewHandle;
    State(0, if Spliceable(sc) then h.Ensure(sc.dir, sc.compare) else h, false)
  }

  lemma BeginGoes(sc: Scan, a: Ask)
    ensures var s := Begin(sc, a);
            Going(sc, s) && ExtraRest(sc, s) == Extra(sc, PatternOf(a)) && s.handle.filter == (if sc.hooks.overlay then PatternOf(a) else [])
            && (s.handle.filterSet <==> sc.hooks.overlay && PatternOf(a) != [])
  {
    hide Matching;
    var h := Begin(sc, a).handle;
    assert h.snapshot[h.cursor..] == h.snapshot;
    MatchesNothing(h.filter, sc.compare);
    if !Spliceable(sc) && sc.hooks.overlay { assert SnapshotOf(sc.dir, sc.compare) == []; }
  }

  lemma MatchesNothing(filter: Pattern, compare: Compare)
    ensures Matching([], filter, compare) == []
  {}

  lemma FirstAnswer(sc: Scan, a: Ask)
    requires sc.Valid()
    ensures Going(sc, Begin(sc, a))
    ensures Answer(sc, NewState, a) == Answer(sc, Begin(sc, a), Ask(a.single, false, None))
  {
    hide NextSeen, Take, SnapshotOf, Listed, AllGood, TryGetDirInfoLayout;
  }

  lemma FirstOfAll(sc: Scan, asks: seq<Ask>)
    requires sc.Valid() && asks != []
    ensures Going(sc, Begin(sc, asks[0]))
    ensures var bs := [Ask(asks[0].single, false, None)] + asks[1..];
            && ReadAll(sc, NewState, asks) == ReadAll(sc, Begin(sc, asks[0]), bs)
            && (ToTheEnd(sc, NewState, asks) <==> ToTheEnd(sc, Begin(sc, asks[0]), bs))
  {
    hide Answer, Begin;
    FirstAnswer(sc, asks[0]);
    var bs := [Ask(asks[0].single, false, None)] + asks[1..];
    assert bs[1..] == asks[1..];
  }

  /** The queries of one scan: only the first may restart it, and no pattern comes late. */
  ghost predicate OneScan(sc: Scan, asks: seq<Ask>) {
    asks != [] && forall a <- asks[1..] :: Ongoing(Begin(sc, asks[0]).handle, a)
  }

  /** A whole scan reads the buffers that the filter hands back, then what the overlay adds. */
  lemma WholeScanReads(sc: Scan, asks: seq<Ask>)
    requires sc.Valid() && !sc.hooks.reporting && OneScan(sc, asks) && ToTheEnd(sc, NewState, asks)
    requires ExtrasFit(sc, Extra(sc, PatternOf(asks[0])))
    ensures ReadAll(sc, NewState, asks).1 == RealRest(sc, 0, sc.hooks.filter) + Extra(sc, PatternOf(asks[0]))
  {
    hide ReadAll, ToTheEnd, RealRest, ExtraRest, Extra, PatternOf, Begin, Scan.Valid;
    var s, bs := Begin(sc, asks[0]), [Ask(asks[0].single, false, None)] + asks[1..];
    FirstOfAll(sc, asks);
    BeginGoes(sc, asks[0]);
    BeginAtStart(sc, asks[0]);
    forall a <- bs ensures Ongoing(s.handle, a) {
      assert a == bs[0] || a in asks[1..];
    }
    ScanReads(sc, s, bs);
  }

  lemma BeginAtStart(sc: Scan, a: Ask)
    ensures Begin(sc, a).position == 0
  {}

  /** What the scan should read: the visible entries, then what the overlay adds. */
  ghost function Intended(sc: Scan, asks: seq<Ask>): seq<Name>
    requires sc.Valid() && asks != []
  {
    var listed := NamesOf(sc.batches, sc.Layout());
    (if sc.hooks.filter then Visible(listed, sc.visible) else listed) + Extra(sc, PatternOf(asks[0]))
  }

  lemma SameBefore(x: seq<Name>, y: seq<Name>, z: seq<Name>)
    ensures x + z == y + z <==> x == y
  {
    if x + z == y + z {
      assert |x| == |y| && x == (x + z)[..|x|] && y == (y + z)[..|y|];
    }
  }

  /** It does so exactly when every batch with something visible starts with it. */
  lemma WholeScanExact(sc: Scan, asks: seq<Ask>)
    requires sc.Valid() && !sc.hooks.reporting && OneScan(sc, asks) && ToTheEnd(sc, NewState, asks)
    requires ExtrasFit(sc, Extra(sc, PatternOf(asks[0])))
    ensures ReadAll(sc, NewState, asks).1 == Intended(sc, asks)
            <==> (sc.hooks.filter ==> HeadsVisible(sc.batches, sc.Layout(), sc.visible))
  {
    hide ReadAll, ToTheEnd, Extra, PatternOf, Begin, HandedBack, NamesOf, Visible, HeadsVisible, AllGood, TryGetDirInfoLayout;
    WholeScanReads(sc, asks);
    assert sc.batches[0..] == sc.batches;
    var listed := NamesOf(sc.batches, sc.Layout());
    if sc.hooks.filter { ScanExact(sc.batches, sc.Layout(), sc.visible); }
    SameBefore(RealRest(sc, 0, sc.hooks.filter), if sc.hooks.filter then Visible(listed, sc.visible) else listed, Extra(sc, PatternOf(asks[0])));
  }

  // ---- With reporting ----

  /** Once the enumeration has been reported a scan reads the rest of the real entries as they
      are: no filter, no overlay. */
  lemma {:induction false} ReportedReads(sc: Scan, s: State, asks: seq<Ask>)
    requires sc.Valid() && s.position <= |sc.batches| && s.handle.Valid() && s.reported
    requires (forall a <- asks :: !a.restart) && ToTheEnd(sc, s, asks)
    ensures ReadAll(sc, s, asks).1 == RealRest(sc, s.position, false)
    decreases |asks|
  {
    hide RealRest, Listed, NextSeen, Scan.Valid;
    assert asks[0] in asks && forall a <- asks[1..] :: a in asks;
    SeenConserves(sc, s.position, false);
    var (t, names) := Answer(sc, s, asks[0]);
    if |asks| == 1 {
      assert ReadAll(sc, t, asks[1..]).1 == [];
    } else {
      ReportedReads(sc, t, asks[1..]);
    }
  }

  /** What the first query gets to read. */
  ghost function FirstSeen(sc: Scan): (r: (Option<seq<byte>>, nat))
    requires sc.Valid()
    ensures r.1 <= |sc.batches|
  {
    NextSeen(sc.batches, 0, sc.infoClass, sc.visible, sc.hooks.filter)
  }

  /** What the overlay adds at once, if nothing real is to be read. */
  ghost function Taken(sc: Scan, a: Ask): seq<Name>
    requires sc.Valid()
  {
    if Spliceable(sc) then Take(SnapshotOf(sc.dir, sc.compare), PatternOf(a), sc.compare, sc.Layout(), sc.length, 0, a.single).0
    else []
  }

  /** That is all of it exactly if the buffer has room for it and the query did not ask for a
      single entry of several. */
  lemma TakenIs(sc: Scan, a: Ask)
    requires sc.Valid()
    ensures var ns := Extra(sc, PatternOf(a));
            Taken(sc, a) == ns <==> AllFit(ns, sc.Layout(), sc.length, 0) && (a.single ==> |ns| <= 1)
  {
    hide Take, AllFit, TryGetDirInfoLayout, AllGood;
    var ns, l := SnapshotOf(sc.dir, sc.compare), sc.Layout();
    TakeAll(ns, PatternOf(a), sc.compare, l, sc.length, 0, a.single);
    FitsNothing(l, sc.length);
    MatchesNothing(PatternOf(a), sc.compare);
  }

  lemma FitsNothing(l: Layout, length: nat)
    ensures AllFit([], l, length, 0)
  {}

  lemma FirstIs(sc: Scan, a: Ask)
    requires sc.Valid()
    ensures var (b, next) := FirstSeen(sc);
            var (t, names) := Answer(sc, NewState, a);
            && t.position == next
            && names == (if b.Some? then Some(Listed(b.value, sc.Layout())) else if Taken(sc, a) != [] then Some(Taken(sc, a)) else None)
            && t.reported == (sc.hooks.reporting && names.Some?)
  {
    hide NextSeen, Take, SnapshotOf, Listed, AllGood, TryGetDirInfoLayout;
    if Spliceable(sc) {
      var g := NewHandle.Captured(a.pattern, a.restart).Ensure(sc.dir, sc.compare);
      assert g.snapshot[0..] == SnapshotOf(sc.dir, sc.compare);
    }
  }

  /** With reporting on, a whole scan reads the first buffer that has something visible and all
      real entries after it; the overlay adds nothing, unless nothing is visible: then it adds
      what one buffer takes. */
  lemma ReportedScan(sc: Scan, asks: seq<Ask>)
    requires sc.Valid() && sc.hooks.reporting && asks != [] && (forall a <- asks[1..] :: !a.restart)
    requires ToTheEnd(sc, NewState, asks)
    ensures var (b, next) := FirstSeen(sc);
            ReadAll(sc, NewState, asks).1
            == if b.Some? then Listed(b.value, sc.Layout()) + RealRest(sc, next, false) else Taken(sc, asks[0])
  {
    hide Answer, RealRest, Listed, NextSeen, Taken, Scan.Valid;
    var (b, next) := FirstSeen(sc);
    var (t, names) := Answer(sc, NewState, asks[0]);
    FirstIs(sc, asks[0]);
    SeenConserves(sc, 0, sc.hooks.filter);
    EndOfBatches(sc, false);
    if |asks| > 1 {
      ReportedReads(sc, t, asks[1..]);
    } else {
      assert ReadAll(sc, t, asks[1..]).1 == [];
    }
    assert Taken(sc, asks[0]) + [] == Taken(sc, asks[0]);
  }

  /** What the hook shows of a batch and of all after it, when only the batch is filtered. */
  lemma {:induction false} VisibleSame(ns: seq<Name>, visible: Name -> bool)
    ensures |Visible(ns, visible)| <= |ns|
    ensures |Visible(ns, visible)| == |ns| <==> forall n <- ns :: visible(n)
    ensures Visible(ns, visible) == ns <==> forall n <- ns :: visible(n)
  {
    if ns != [] {
      VisibleSame(ns[..|ns| - 1], visible);
      assert ns == ns[..|ns| - 1] + [ns[|ns| - 1]];
    }
  }

  lemma {:induction false} NamesSuffix(bs: seq<seq<byte>>, l: Layout, k: nat)
    requires k <= |bs|
    ensures forall n <- NamesOf(bs[k..], l) :: n in NamesOf(bs, l)
  {
    hide Listed;
    if k > 0 {
      NamesSuffix(bs[1..], l, k - 1);
      assert bs[1..][k - 1..] == bs[k..];
    } else {
      assert bs[0..] == bs;
    }
  }

  lemma FirstKnown(bs: seq<seq<byte>>, l: Layout, visible: Name -> bool)
    requires AllGood(bs, l) && NextHanded(bs, 0, l, visible).0.Some?
    ensures var (h, next) := NextHanded(bs, 0, l, visible);
            forall n <- Listed(h.value, l) + NamesOf(bs[next..], l) :: n in NamesOf(bs, l)
  {
    hide Listed, Leading, Visible, GoodChain, HandedBack;
    var (h, next) := NextHanded(bs, 0, l, visible);
    assert bs[0..] == bs;
    var k := HiddenBatches(bs, l, visible);
    HiddenBatchesEnd(bs, l, visible);
    assert bs[k] in bs && bs[k..] == [bs[k]] + bs[next..];
    HandedBuffer(bs[k], l, visible);
    NamesCons(bs[k], bs[next..], l);
    NamesSuffix(bs, l, k);
    var ns := Listed(bs[k], l);
    forall n <- Listed(h.value, l) ensures n in ns {
      if n in Leading(ns, visible) { LeadingHas(ns, visible, n); }
      VisibleHas(ns, visible, n);
    }
  }

  lemma ApartEnds(x: seq<Name>, v: seq<Name>, extra: seq<Name>)
    requires forall n <- x :: n !in extra
    ensures x == v + extra <==> x == v && extra == []
  {
    if extra != [] {
      assert (v + extra)[|v|] == extra[0] && extra[0] in v + extra;
    }
    if extra == [] { assert v + extra == v; }
  }

  lemma FilteredFirst(bs: seq<seq<byte>>, l: Layout, visible: Name -> bool)
    requires AllGood(bs, l) && NextHanded(bs, 0, l, visible).0.Some?
    ensures var (h, next) := NextHanded(bs, 0, l, visible);
            && 1 <= next <= |bs|
            && (Listed(h.value, l) + NamesOf(bs[next..], l) == Visible(NamesOf(bs, l), visible)
                <==> Leading(Listed(bs[next - 1], l), visible) == [] && forall n <- NamesOf(bs[next..], l) :: visible(n))
  {
    hide Listed, Leading, Visible, GoodChain, HandedBack, NamesOf, AnyVisible;
    var (h, next) := NextHanded(bs, 0, l, visible);
    assert bs[0..] == bs;
    HandedInTurn(bs, 0, l, visible);
    var k := HiddenBatches(bs, l, visible);
    HiddenBatchesEnd(bs, l, visible);
    SkipHidden(bs, l, visible, k);
    assert bs[k] in bs && bs[k..] == [bs[k]] + bs[next..];
    HandedBuffer(bs[k], l, visible);
    NamesCons(bs[k], bs[next..], l);
    VisibleConcat(Listed(bs[k], l), NamesOf(bs[next..], l), visible);
    LeadsAndRest(Leading(Listed(bs[k], l), visible), Visible(Listed(bs[k], l), visible), NamesOf(bs[next..], l), visible);
  }

  lemma LeadsAndRest(x: seq<Name>, v: seq<Name>, ns: seq<Name>, visible: Name -> bool)
    ensures (x + v) + ns == v + Visible(ns, visible) <==> x == [] && forall n <- ns :: visible(n)
  {
    hide Visible;
    VisibleSame(ns, visible);
    if (x + v) + ns == v + Visible(ns, visible) {
      assert |(x + v) + ns| == |v + Visible(ns, visible)|;
    }
    if x == [] { assert x + v == v; }
  }

  lemma FirstExact(bs: seq<seq<byte>>, l: Layout, visible: Name -> bool, extra: seq<Name>)
    requires AllGood(bs, l) && forall n <- NamesOf(bs, l) :: n !in extra
    ensures var (k, seen) := (HiddenBatches(bs, l, visible), NextHanded(bs, 0, l, visible));
            if k < |bs| then
              && seen.0.Some? && seen.1 == k + 1
              && (Listed(seen.0.value, l) + NamesOf(bs[k + 1..], l) == Visible(NamesOf(bs, l), visible) + extra
                  <==> && Leading(Listed(bs[k], l), visible) == []
                       && (forall n <- NamesOf(bs[k + 1..], l) :: visible(n))
                       && extra == [])
            else seen.0 == None && Visible(NamesOf(bs, l), visible) == []
  {
    hide Listed, Leading, Visible, GoodChain, HandedBack, NamesOf;
    assert bs[0..] == bs;
    var (k, seen) := (HiddenBatches(bs, l, visible), NextHanded(bs, 0, l, visible));
    if k < |bs| {
      FilteredFirst(bs, l, visible);
      FirstKnown(bs, l, visible);
      ApartEnds(Listed(seen.0.value, l) + NamesOf(bs[k + 1..], l), Visible(NamesOf(bs, l), visible), extra);
    } else {
      SkipHidden(bs, l, visible, k);
      NothingShown(l, visible);
      assert bs[k..] == [];
    }
  }

  /** So with the filter on it reads the intended entries exactly if nothing hidden leads the
      first batch with something visible, nothing after it is hidden and the overlay adds
      nothing; or, with nothing visible, if one buffer takes all that the overlay adds. */
  lemma ReportedExact(sc: Scan, asks: seq<Ask>)
    requires sc.Valid() && sc.hooks.reporting && sc.hooks.filter && asks != [] && (forall a <- asks[1..] :: !a.restart)
    requires ToTheEnd(sc, NewState, asks)
    requires forall n <- NamesOf(sc.batches, sc.Layout()) :: n !in Extra(sc, PatternOf(asks[0]))
    ensures var (l, k, extra) := (sc.Layout(), HiddenBatches(sc.batches, sc.Layout(), sc.visible), Extra(sc, PatternOf(asks[0])));
            ReadAll(sc, NewState, asks).1 == Intended(sc, asks)
            <==> if k < |sc.batches| then
                   && Leading(Listed(sc.batches[k], l), sc.visible) == []
                   && (forall n <- NamesOf(sc.batches[k + 1..], l) :: sc.visible(n))
                   && extra == []
                 else AllFit(extra, l, sc.length, 0) && (asks[0].single ==> |extra| <= 1)
  {
    hide ReadAll, ToTheEnd, Extra, PatternOf, Listed, Leading, Visible, AllGood, NamesOf, Taken, AllFit, TryGetDirInfoLayout, HiddenBatches, NextHanded;
    var extra := Extra(sc, PatternOf(asks[0]));
    ReportedScan(sc, asks);
    FirstExact(sc.batches, sc.Layout(), sc.visible, extra);
    TakenIs(sc, asks[0]);
    assert [] + extra == extra;
  }

  lemma NothingShown(l: Layout, visible: Name -> bool)
    ensures Visible(NamesOf([], l), visible) == []
  {}

  /** Without the filter it does exactly if the overlay adds nothing, or nothing real is there
      and one buffer takes it all. */
  lemma ReportedUnfiltered(sc: Scan, asks: seq<Ask>)
    requires sc.Valid() && sc.hooks.reporting && !sc.hooks.filter && asks != [] && (forall a <- asks[1..] :: !a.restart)
    requires ToTheEnd(sc, NewState, asks)
    ensures var extra := Extra(sc, PatternOf(asks[0]));
            ReadAll(sc, NewState, asks).1 == Intended(sc, asks)
            <==> if sc.batches != [] then extra == [] else AllFit(extra, sc.Layout(), sc.length, 0) && (asks[0].single ==> |extra| <= 1)
  {
    hide ReadAll, ToTheEnd, Extra, PatternOf, Listed, AllGood, Taken, AllFit, TryGetDirInfoLayout;
    ReportedScan(sc, asks);
    TakenIs(sc, asks[0]);
    var listed, extra := NamesOf(sc.batches, sc.Layout()), Extra(sc, PatternOf(asks[0]));
    if sc.batches == [] {
      assert [] + extra == extra;
    } else {
      assert listed + extra == listed ==> |extra| == 0;
      assert listed + [] == listed;
    }
  }

  // ---- A reported scan at an input ----

  /** A listing of the names only, with one name of one letter. */
  function Single(letter: byte): seq<byte> {
    [0, 0, 0, 0, 0, 0, 0, 0, 2, 0, 0, 0, letter, 0]
  }

  lemma SingleListed(letter: byte)
    ensures var l := Layout(8, 12); GoodChain(Single(letter), l) && Listed(Single(letter), l) == [[letter as WChar]]
  {
    var b, l := Single(letter), Layout(8, 12);
    assert U32At(b, 0) == 0 && U32At(b, 8) == 2;
    assert WideAt(b, 12) == letter as WChar;
    assert NameAt(b, 0, l) == [letter as WChar];
    assert Walk(b, 0, l) == [0];
  }

  /** Two batches with a visible and a hidden entry, and one entry of the overlay. */
  function TwoBatches(reporting: bool): Scan {
    Scan([Single(97), Single(98)], STATUS_NO_MORE_FILES, 12, 64, (n: Name) => n == [97],
         Directory(true, true, [[99]], (n: Name) => n == [97] || n == [98]), ExactMatch, Hooks(true, true, reporting))
  }

  const PlainAsk := Ask(false, false, None)

  /** What the queries of a visible and then a hidden batch give through the filter. */
  lemma PairSeen(x: seq<byte>, y: seq<byte>, l: Layout, visible: Name -> bool, n: Name, m: Name)
    requires GoodChain(x, l) && GoodChain(y, l) && Listed(x, l) == [n] && Listed(y, l) == [m] && visible(n) && !visible(m)
    ensures AllGood([x, y], l)
    ensures var (b, next) := NextHanded([x, y], 0, l, visible);
            b.Some? && Listed(b.value, l) == [n] && next == 1
    ensures NextHanded([x, y], 1, l, visible) == (None, 2) == NextHanded([x, y], 2, l, visible)
  {
    hide Listed, GoodChain, Kept, Relinked;
    var bs := [x, y];
    assert bs[0..] == bs && bs[1..] == [y] && bs[2..] == [] && bs[1..][1..] == [];
    OneVisible(n, visible);
    OneVisible(m, visible);
    assert HiddenBatches(bs, l, visible) == 0 && HiddenBatches(bs[1..], l, visible) == 1;
    HandedBuffer(x, l, visible);
  }

  lemma OneVisible(n: Name, visible: Name -> bool)
    ensures Visible([n], visible) == if visible(n) then [n] else []
    ensures Leading([n], visible) == if visible(n) then [] else [n]
  {
    assert [n][..0] == [] && [n][1..] == [];
  }

  /** What the queries of the two batches give: filtered from the first and the second on, and
      as they are. */
  lemma TwoBatchesSeen()
    ensures var sc := TwoBatches(true);
            && sc.Valid() && sc.Layout() == Layout(8, 12) && |sc.batches| == 2
            && (var (b, next) := NextSeen(sc.batches, 0, 12, sc.visible, true);
                b.Some? && Listed(b.value, Layout(8, 12)) == [[97]] && next == 1)
            && NextSeen(sc.batches, 1, 12, sc.visible, true) == (None, 2)
            && NextSeen(sc.batches, 2, 12, sc.visible, true) == (None, 2)
            && NextSeen(sc.batches, 1, 12, sc.visible, false) == (Some(Single(98)), 2)
            && Listed(Single(98), Layout(8, 12)) == [[98]]
  {
    hide Listed, GoodChain, Single, NextHanded, AllGood;
    var sc := TwoBatches(true);
    SingleListed(97);
    SingleListed(98);
    PairSeen(Single(97), Single(98), Layout(8, 12), sc.visible, [97], [98]);
    assert TryGetDirInfoLayout(12) == Some(Layout(8, 12));
  }

  /** The entry of the overlay is spliced in once the real queries are done. */
  lemma TwoBatchesSpliced()
    ensures var sc := TwoBatches(true);
            && SnapshotOf(sc.dir, sc.compare) == [[99]]
            && Take([[99]], [], sc.compare, Layout(8, 12), 64, 0, false) == ([[99]], 1)
            && Take([], [], sc.compare, Layout(8, 12), 64, 0, false) == ([], 0)
  {
    var sc := TwoBatches(true);
    var ns: seq<Name> := [[99]];
    assert ns[..0] == [] && ns[1..] == [];
    assert Visible(ns, sc.dir.OffDisk()) == ns;
  }

  /** A reported scan reads the hidden entry and not the overlay's; an unreported one the other
      way round. */
  lemma ReportedLeak()
    ensures var asks := [PlainAsk, PlainAsk, PlainAsk];
            && TwoBatches(true).Valid() && TwoBatches(false).Valid()
            && ToTheEnd(TwoBatches(true), NewState, asks) && ReadAll(TwoBatches(true), NewState, asks).1 == [[97], [98]]
            && ToTheEnd(TwoBatches(false), NewState, asks) && ReadAll(TwoBatches(false), NewState, asks).1 == [[97], [99]]
  {
    TwoBatchesSeen();
    ReportedSteps();
    UnreportedSteps();
  }

  lemma ReportedSteps()
    ensures var sc, asks := TwoBatches(true), [PlainAsk, PlainAsk, PlainAsk];
            sc.Valid() && ToTheEnd(sc, NewState, asks) && ReadAll(sc, NewState, asks).1 == [[97], [98]]
  {
    hide Listed, NextSeen, Scan.Valid, Splice, Single;
    TwoBatchesSeen();
    var sc, asks := TwoBatches(true), [PlainAsk, PlainAsk, PlainAsk];
    var (t, first) := Answer(sc, NewState, PlainAsk);
    var (u, second) := Answer(sc, t, PlainAsk);
    AfterTwo(sc);
    assert first == Some([[97]]) && t.reported && t.position == 1 by { FirstIs(sc, PlainAsk); }
    assert second == Some([[98]]) && u.reported && u.position == 2;
    ThreeAsks(sc, asks);
  }

  lemma AfterTwo(sc: Scan)
    requires |sc.batches| == 2 && sc.Valid()
    ensures NextSeen(sc.batches, 2, sc.infoClass, sc.visible, false) == (None, 2)
  {}

  lemma ThreeAsks(sc: Scan, asks: seq<Ask>)
    requires sc.Valid() && |asks| == 3
    ensures var (t, x) := Answer(sc, NewState, asks[0]);
            var (u, y) := Answer(sc, t, asks[1]);
            var (_, z) := Answer(sc, u, asks[2]);
            && ReadAll(sc, NewState, asks).1 == Read(x) + (Read(y) + Read(z))
            && (x.Some? && y.Some? && z == None ==> ToTheEnd(sc, NewState, asks))
  {
    hide Answer, Scan.Valid;
    var (t, x) := Answer(sc, NewState, asks[0]);
    var (u, y) := Answer(sc, t, asks[1]);
    var (v, z) := Answer(sc, u, asks[2]);
    assert asks[1..][1..] == [asks[2]];
    assert ReadAll(sc, u, [asks[2]]).1 == Read(z) + ReadAll(sc, v, []).1;
    assert Read(z) + [] == Read(z);
    if x.Some? && y.Some? && z == None {
      assert ToTheEnd(sc, u, [asks[2]]);
      assert asks[1..][0] == asks[1] && ToTheEnd(sc, t, asks[1..]);
    }
  }

  lemma UnreportedSteps()
    ensures var sc, asks := TwoBatches(false), [PlainAsk, PlainAsk, PlainAsk];
            sc.Valid() && ToTheEnd(sc, NewState, asks) && ReadAll(sc, NewState, asks).1 == [[97], [99]]
  {
    hide Listed, NextSeen, Scan.Valid, Single, Take, SnapshotOf;
    TwoBatchesSeen();
    TwoBatchesSpliced();
    var sc, asks := TwoBatches(false), [PlainAsk, PlainAsk, PlainAsk];
    assert sc == TwoBatches(true).(hooks := Hooks(true, true, false));
    assert sc.Valid() && sc.Layout() == Layout(8, 12) by { SameValid(); }
    var h := Handle(true, 0, [[99]], [], false);
    assert h.snapshot[0..] == [[99]] && h.snapshot[1..] == [];
    assert Answer(sc, NewState, PlainAsk) == (State(1, h, false), Some([[97]]));
    assert Answer(sc, State(1, h, false), PlainAsk) == (State(2, h.(cursor := 1), false), Some([[99]]));
    assert Answer(sc, State(2, h.(cursor := 1), false), PlainAsk).1 == None;
    ThreeAsks(sc, asks);
  }

  lemma SameValid()
    requires TwoBatches(true).Valid()
    ensures TwoBatches(false).Valid() && TwoBatches(false).Layout() == TwoBatches(true).Layout()
  {
    hide AllGood, TryGetDirInfoLayout, Single;
  }
}
