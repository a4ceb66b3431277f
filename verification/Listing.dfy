/** What an enumeration of a directory shows, against what its children look like one by one. */
module Listing {
  import opened Optional
  import opened Words
  import opened FileLayer
  import opened OverlayEngine
  import opened OverlayView
  import opened OverlayFrame
  import opened OverlayRefinement
  import opened Ordering
  import DirRecords
  import EnumFilter
  import EnumRequery
  import EnumCursor
  import EnumScan

  /** The pseudo-entries `.` and `..`. */
  predicate Dot(n: Name) {
    n == [46] || n == [46, 46]
  }

  /** Whether the filter keeps an entry of the directory `d`: the pseudo-entries, what may be
      read, what leads to it, and what this action created. */
  predicate IsEnumChildVisible(c: Config, s: Store, d: Path, n: Name) {
    n == [46] || n == [46, 46] || c.policy(d + [n]).read || c.policy(d + [n]).exact || (c.policy(d + [n]).redirect && d + [n] in s.backing)
  }

  /** The filter runs only under `--filter-inputs`. */
  predicate Kept(c: Config, s: Store, d: Path, n: Name) {
    !c.filter || IsEnumChildVisible(c, s, d, n)
  }

  /** The operating system lists each child once, and perhaps the pseudo-entries. */
  ghost predicate Lists(l: Layer, d: Path, ns: seq<Name>) {
    && (forall n :: !Dot(n) ==> (n in ns <==> d + [n] in l))
    && NoDuplicates(ns)
  }

  /** `ListBackingChildren` skips the pseudo-entries. */
  ghost predicate Children(l: Layer, d: Path, ns: seq<Name>) {
    Lists(l, d, ns) && forall n <- ns :: !Dot(n)
  }

  /** The directory as the enumeration hooks see it: `back` are its backing children. */
  function Seen(s: Store, d: Path, back: seq<Name>): EnumCursor.Directory {
    EnumCursor.Directory(true, IsDir(s.disk, d), back, n => d + [n] in s.disk)
  }

  function Keeps(c: Config, s: Store, d: Path): Name -> bool {
    n => Kept(c, s, d, n)
  }

  /** A handle to list `d` with can be opened. */
  predicate Listable(c: Config, s: Store, d: Path) {
    IsDir(s.disk, d) || (c.policy(d).redirect && IsDir(s.backing, d))
  }

  /** The layer that the handle is on. */
  function ListedLayer(s: Store, d: Path): Layer {
    if IsDir(s.disk, d) then s.disk else s.backing
  }

  // ---- One whole scan ----

  /** The directory as the operating system lists it to a new handle, and the queries of the
      caller. */
  datatype Enumeration = Enumeration(scan: EnumScan.Scan, asks: seq<EnumScan.Ask>)
  {
    ghost function Names(): seq<Name>
      requires scan.Valid()
    {
      EnumRequery.NamesOf(scan.batches, scan.Layout())
    }
  }

  /** A scan of `d` to its end with a pattern that matches everything, while neither layer
      changes. */
  ghost predicate Scans(c: Config, s: Store, d: Path, e: Enumeration, back: seq<Name>) {
    && e.scan.Valid() && Lists(ListedLayer(s, d), d, e.Names()) && Children(s.backing, d, back)
    && e.scan.dir == Seen(s, d, back) && e.scan.visible == Keeps(c, s, d)
    && e.scan.hooks.overlay && e.scan.hooks.filter == c.filter
    && e.asks != [] && EnumCursor.MatchesEverything(EnumScan.PatternOf(e.asks[0])) && EnumScan.ToTheEnd(e.scan, EnumScan.NewState, e.asks)
  }

  /** The same without reporting, in buffers with room for every record. */
  ghost predicate FullScan(c: Config, s: Store, d: Path, e: Enumeration, back: seq<Name>) {
    && Scans(c, s, d, e, back) && !e.scan.hooks.reporting && EnumScan.OneScan(e.scan, e.asks)
    && EnumScan.ExtrasFit(e.scan, EnumCursor.SnapshotOf(Seen(s, d, back), e.scan.compare))
  }

  /** What the caller reads. */
  ghost function Scanned(e: Enumeration): seq<Name>
    requires e.scan.Valid()
  {
    EnumScan.ReadAll(e.scan, EnumScan.NewState, e.asks).1
  }

  /** What it should be: the visible entries of the listed layer, then the snapshot. */
  function Enumerated(c: Config, s: Store, d: Path, listed: seq<Name>, back: seq<Name>, compare: EnumCursor.Compare): seq<Name> {
    EnumFilter.Visible(listed, Keeps(c, s, d)) + EnumCursor.SnapshotOf(Seen(s, d, back), compare)
  }

  /** A hidden entry that the caller reads all the same. */
  ghost predicate Leaked(c: Config, s: Store, d: Path, e: Enumeration, n: Name)
    requires e.scan.Valid()
  {
    c.filter && EnumRequery.Leaks(e.scan.batches, e.scan.Layout(), Keeps(c, s, d), n)
  }

  /** The real entries as they are handed back. */
  ghost function Handed(c: Config, s: Store, d: Path, e: Enumeration): seq<Name>
    requires e.scan.Valid()
  {
    if c.filter then EnumRequery.NamesOf(EnumRequery.HandedBack(e.scan.batches, e.scan.Layout(), Keeps(c, s, d)), e.scan.Layout())
    else e.Names()
  }

  lemma ExtraIs(c: Config, s: Store, d: Path, e: Enumeration, back: seq<Name>)
    requires Scans(c, s, d, e, back)
    ensures EnumScan.Extra(e.scan, EnumScan.PatternOf(e.asks[0])) == EnumCursor.SnapshotOf(Seen(s, d, back), e.scan.compare)
  {
    hide Lists, Children, EnumScan.ToTheEnd, EnumScan.Scan.Valid, EnumCursor.SnapshotOf, EnumCursor.Matching;
    EnumCursor.MatchesAll(EnumCursor.SnapshotOf(Seen(s, d, back), e.scan.compare), EnumScan.PatternOf(e.asks[0]), e.scan.compare);
  }

  lemma ScannedParts(c: Config, s: Store, d: Path, e: Enumeration, back: seq<Name>)
    requires FullScan(c, s, d, e, back)
    ensures Scanned(e) == Handed(c, s, d, e) + EnumCursor.SnapshotOf(Seen(s, d, back), e.scan.compare)
  {
    hide Lists, Children, EnumScan.ToTheEnd, EnumScan.ReadAll, EnumScan.OneScan, EnumScan.ExtrasFit, EnumScan.PatternOf, EnumScan.Extra,
         EnumCursor.SnapshotOf, EnumRequery.HandedBack, EnumRequery.NamesOf, EnumRequery.AllGood;
    ExtraIs(c, s, d, e, back);
    EnumScan.WholeScanReads(e.scan, e.asks);
    assert e.scan.batches[0..] == e.scan.batches;
  }

  lemma IntendedIs(c: Config, s: Store, d: Path, e: Enumeration, back: seq<Name>)
    requires Scans(c, s, d, e, back)
    ensures EnumScan.Intended(e.scan, e.asks) == Enumerated(c, s, d, e.Names(), back, e.scan.compare)
  {
    hide Lists, Children, EnumScan.ToTheEnd, EnumScan.PatternOf, EnumScan.Extra, EnumScan.Scan.Valid,
         EnumCursor.SnapshotOf, EnumRequery.NamesOf, EnumFilter.Visible;
    ExtraIs(c, s, d, e, back);
    if !c.filter { VisibleAll(e.Names(), Keeps(c, s, d)); }
  }

  /** The scan reads exactly what it should, exactly when no batch has hidden entries before
      its first visible one. */
  lemma ScannedIs(c: Config, s: Store, d: Path, e: Enumeration, back: seq<Name>)
    requires FullScan(c, s, d, e, back)
    ensures Scanned(e) == Enumerated(c, s, d, e.Names(), back, e.scan.compare)
            <==> (c.filter ==> EnumRequery.HeadsVisible(e.scan.batches, e.scan.Layout(), Keeps(c, s, d)))
  {
    hide Lists, Children, EnumScan.ToTheEnd, EnumScan.ReadAll, EnumScan.OneScan, EnumScan.PatternOf, EnumScan.Extra, EnumScan.Intended,
         EnumCursor.SnapshotOf, EnumRequery.HeadsVisible, Enumerated, EnumScan.Scan.Valid;
    ExtraIs(c, s, d, e, back);
    IntendedIs(c, s, d, e, back);
    EnumScan.WholeScanExact(e.scan, e.asks);
  }

  /** With reporting on it does so exactly when nothing hidden leads the first batch with
      something visible or comes after it, and the overlay adds nothing; or, where nothing real
      is visible, when one buffer takes all that the overlay adds. */
  lemma ReportedIs(c: Config, s: Store, d: Path, e: Enumeration, back: seq<Name>)
    requires Scans(c, s, d, e, back) && e.scan.hooks.reporting && forall a <- e.asks[1..] :: !a.restart
    ensures var (bs, l, keeps) := (e.scan.batches, e.scan.Layout(), Keeps(c, s, d));
            var k := if c.filter then EnumRequery.HiddenBatches(bs, l, keeps) else 0;
            var extra := EnumCursor.SnapshotOf(Seen(s, d, back), e.scan.compare);
            Scanned(e) == Enumerated(c, s, d, e.Names(), back, e.scan.compare)
            <==> if k < |bs| then
                   && extra == []
                   && (c.filter ==> && EnumFilter.Leading(EnumFilter.Listed(bs[k], l), keeps) == []
                                    && forall n <- EnumRequery.NamesOf(bs[k + 1..], l) :: keeps(n))
                 else EnumCursor.AllFit(extra, l, e.scan.length, 0) && (e.asks[0].single ==> |extra| <= 1)
  {
    hide Children, Lists, EnumScan.ToTheEnd, EnumScan.ReadAll, EnumScan.PatternOf, EnumScan.Extra, EnumScan.Intended, Enumerated,
         EnumCursor.SnapshotOf, EnumCursor.AllFit, EnumRequery.HiddenBatches, EnumRequery.NamesOf, EnumFilter.Leading, EnumFilter.Listed,
         EnumScan.Scan.Valid;
    ExtraIs(c, s, d, e, back);
    IntendedIs(c, s, d, e, back);
    if c.filter {
      forall n <- e.Names() ensures n !in EnumCursor.SnapshotOf(Seen(s, d, back), e.scan.compare) {
        SnapshotApart(s, d, e.Names(), back, e.scan.compare, n);
      }
      EnumScan.ReportedExact(e.scan, e.asks);
    } else {
      EnumScan.ReportedUnfiltered(e.scan, e.asks);
    }
  }

  lemma {:induction false} VisibleAll(ns: seq<Name>, visible: Name -> bool)
    requires forall n <- ns :: visible(n)
    ensures EnumFilter.Visible(ns, visible) == ns
  {
    if ns != [] {
      VisibleAll(ns[..|ns| - 1], visible);
      assert ns == ns[..|ns| - 1] + [ns[|ns| - 1]];
    }
  }

  // ---- Agreement with the merged view ----

  /** Nothing is in the backing store but the overlay's cone and mirrored real directories. */
  ghost predicate Rooted(c: Config, s: Store) {
    forall p :: p in s.backing ==> c.policy(p).redirect || IsDir(s.disk, p)
  }

  /** Real entries the listing leaves out though the path itself is there: hidden ones with no
      backing copy that are directories or lie outside the overlay's cone. */
  predicate Missed(c: Config, s: Store, p: Path) {
    p in s.disk && c.Hidden(p) && !(c.policy(p).redirect && p in s.backing) && (IsDir(s.disk, p) || !c.policy(p).redirect)
  }

  /** The intended listing has a name exactly when the merged view has that child, save for the
      missed entries. */
  lemma EnumeratedAgrees(c: Config, s: Store, d: Path, listed: seq<Name>, back: seq<Name>, compare: EnumCursor.Compare, n: Name)
    requires Coherent(c, s) && Rooted(c, s) && Listable(c, s, d) && !Dot(n)
    requires Lists(ListedLayer(s, d), d, listed) && Children(s.backing, d, back)
    ensures n in Enumerated(c, s, d, listed, back, compare) <==> d + [n] in Files(c, s) && !Missed(c, s, d + [n])
  {
    var p := d + [n];
    FilesAt(c, s, p);
    EnumFilter.VisibleHas(listed, Keeps(c, s, d), n);
    if IsDir(s.disk, d) {
      EnumCursor.SnapshotHas(Seen(s, d, back), compare);
    } else {
      assert Parent(p) == d && HasParent(s.disk, p) == IsDir(s.disk, d);
      assert p !in s.disk;
    }
  }

  lemma ScannedHas(c: Config, s: Store, d: Path, e: Enumeration, back: seq<Name>, n: Name)
    requires FullScan(c, s, d, e, back)
    ensures n in Scanned(e) <==> n in Enumerated(c, s, d, e.Names(), back, e.scan.compare) || Leaked(c, s, d, e, n)
  {
    hide Scanned, EnumRequery.Leaks, EnumRequery.NamesOf, EnumRequery.HandedBack, EnumFilter.Visible, EnumCursor.SnapshotOf, EnumScan.ToTheEnd;
    ScannedParts(c, s, d, e, back);
    EnumFilter.VisibleHas(e.Names(), Keeps(c, s, d), n);
    if c.filter {
      EnumRequery.HandedNames(e.scan.batches, e.scan.Layout(), Keeps(c, s, d));
      EnumRequery.DeliveredHas(e.scan.batches, e.scan.Layout(), Keeps(c, s, d), n);
    }
  }

  /** A whole scan of a directory gives a name exactly when the merged view has that child, save
      for the missed entries and the hidden ones that leak at the head of a batch. */
  lemma ListingAgrees(c: Config, s: Store, d: Path, e: Enumeration, back: seq<Name>, n: Name)
    requires Coherent(c, s) && Rooted(c, s) && Listable(c, s, d) && FullScan(c, s, d, e, back) && !Dot(n)
    ensures n in Scanned(e) <==> (d + [n] in Files(c, s) && !Missed(c, s, d + [n])) || Leaked(c, s, d, e, n)
  {
    hide *;
    Parts(c, s, d, e, back);
    EnumeratedAgrees(c, s, d, e.Names(), back, e.scan.compare, n);
    ScannedHas(c, s, d, e, back, n);
  }

  /** The pseudo-entries are never filtered, spliced or leaked: they are read exactly if the
      operating system lists them. */
  lemma DotsListed(c: Config, s: Store, d: Path, e: Enumeration, back: seq<Name>, n: Name)
    requires FullScan(c, s, d, e, back) && (n == [46] || n == [46, 46])
    ensures n in Scanned(e) <==> n in e.Names()
  {
    hide Scanned, EnumRequery.NamesOf, EnumCursor.SnapshotOf, EnumScan.ToTheEnd, EnumFilter.Visible, EnumFilter.Leading, EnumFilter.Listed,
         EnumRequery.AnyVisible, EnumScan.Scan.Valid, EnumScan.OneScan, EnumScan.ExtrasFit;
    ScannedHas(c, s, d, e, back, n);
    EnumFilter.VisibleHas(e.Names(), Keeps(c, s, d), n);
    if IsDir(s.disk, d) { EnumCursor.SnapshotHas(Seen(s, d, back), e.scan.compare); } else { NoSnapshot(s, d, back, e.scan.compare); }
    forall b | b in e.scan.batches ensures n !in EnumFilter.Leading(EnumFilter.Listed(b, e.scan.Layout()), Keeps(c, s, d)) {
      if n in EnumFilter.Leading(EnumFilter.Listed(b, e.scan.Layout()), Keeps(c, s, d)) {
        EnumRequery.LeadingHas(EnumFilter.Listed(b, e.scan.Layout()), Keeps(c, s, d), n);
      }
    }
  }

  lemma NoSnapshot(s: Store, d: Path, back: seq<Name>, compare: EnumCursor.Compare)
    requires !IsDir(s.disk, d)
    ensures EnumCursor.SnapshotOf(Seen(s, d, back), compare) == []
  {}

  lemma Parts(c: Config, s: Store, d: Path, e: Enumeration, back: seq<Name>)
    requires FullScan(c, s, d, e, back)
    ensures e.scan.Valid() && Lists(ListedLayer(s, d), d, e.Names()) && Children(s.backing, d, back)
  {
    hide Lists, Children, EnumScan.Scan.Valid;
  }

  // ---- No name twice ----

  lemma {:induction false} VisibleDistinct(ns: seq<Name>, visible: Name -> bool)
    requires NoDuplicates(ns)
    ensures NoDuplicates(EnumFilter.Visible(ns, visible))
  {
    if ns != [] {
      var front := ns[..|ns| - 1];
      VisibleDistinct(front, visible);
      EnumFilter.VisibleHas(front, visible, ns[|ns| - 1]);
      assert ns[|ns| - 1] !in front;
    }
  }

  lemma {:induction false} LeadingDistinct(ns: seq<Name>, visible: Name -> bool)
    requires NoDuplicates(ns)
    ensures NoDuplicates(EnumFilter.Leading(ns, visible))
  {
    if ns != [] && !visible(ns[0]) {
      LeadingDistinct(ns[1..], visible);
      forall j | 0 <= j < |ns[1..]| ensures ns[1..][j] != ns[0] {
        assert ns[1..][j] == ns[j + 1];
      }
      forall n <- EnumFilter.Leading(ns[1..], visible) ensures n in ns[1..] {
        EnumRequery.LeadingHas(ns[1..], visible, n);
      }
      assert ns[0] !in EnumFilter.Leading(ns[1..], visible);
      BothDistinct([ns[0]], EnumFilter.Leading(ns[1..], visible));
    }
  }

  lemma BothDistinct(a: seq<Name>, b: seq<Name>)
    requires NoDuplicates(a) && NoDuplicates(b) && forall n <- a :: n !in b
    ensures NoDuplicates(a + b)
  {
    var ns := a + b;
    forall i, j | 0 <= i < j < |ns| ensures ns[i] != ns[j] {
      if i < |a| <= j { assert a[i] in a && b[j - |a|] in b; }
    }
  }

  lemma PartsDistinct(a: seq<Name>, b: seq<Name>)
    requires NoDuplicates(a + b)
    ensures NoDuplicates(a) && NoDuplicates(b) && forall n <- a :: n !in b
  {
    var ns := a + b;
    forall i | 0 <= i < |a| ensures ns[i] == a[i] {}
    forall j | 0 <= j < |b| ensures ns[|a| + j] == b[j] {}
    forall i, j | 0 <= i < |a| && 0 <= j < |b| ensures a[i] != b[j] {
      assert ns[i] != ns[|a| + j];
    }
  }

  lemma BatchDistinct(ns: seq<Name>, visible: Name -> bool)
    requires NoDuplicates(ns)
    ensures NoDuplicates(EnumFilter.Leading(ns, visible) + EnumFilter.Visible(ns, visible))
  {
    hide EnumFilter.Leading, EnumFilter.Visible, NoDuplicates;
    LeadingDistinct(ns, visible);
    VisibleDistinct(ns, visible);
    forall n <- EnumFilter.Leading(ns, visible) ensures n !in EnumFilter.Visible(ns, visible) {
      EnumRequery.LeadingHas(ns, visible, n);
      EnumFilter.VisibleHas(ns, visible, n);
    }
    BothDistinct(EnumFilter.Leading(ns, visible), EnumFilter.Visible(ns, visible));
  }

  lemma {:induction false} DeliveredDistinct(bs: seq<seq<byte>>, l: DirRecords.Layout, visible: Name -> bool)
    requires NoDuplicates(EnumRequery.NamesOf(bs, l))
    ensures NoDuplicates(EnumRequery.Delivered(bs, l, visible))
  {
    hide EnumFilter.Leading, EnumFilter.Visible, EnumFilter.Listed, EnumRequery.AnyVisible, EnumRequery.Leaks, NoDuplicates;
    if bs != [] {
      var ns, rest := EnumFilter.Listed(bs[0], l), EnumRequery.NamesOf(bs[1..], l);
      PartsDistinct(ns, rest);
      DeliveredDistinct(bs[1..], l, visible);
      BatchDistinct(ns, visible);
      var here := if EnumRequery.AnyVisible(bs[0], l, visible)
                  then EnumFilter.Leading(ns, visible) + EnumFilter.Visible(ns, visible) else [];
      forall n <- here ensures n !in EnumRequery.Delivered(bs[1..], l, visible) {
        if n in EnumFilter.Leading(ns, visible) { EnumRequery.LeadingHas(ns, visible, n); }
        EnumFilter.VisibleHas(ns, visible, n);
        EnumRequery.DeliveredHas(bs[1..], l, visible, n);
      }
      NoneDistinct();
      BothDistinct(here, EnumRequery.Delivered(bs[1..], l, visible));
    } else {
      NoneDistinct();
    }
  }

  lemma NoneDistinct()
    ensures NoDuplicates([])
  {}

  lemma SnapshotDistinct(s: Store, d: Path, back: seq<Name>, compare: EnumCursor.Compare)
    requires NoDuplicates(back)
    ensures NoDuplicates(EnumCursor.SnapshotOf(Seen(s, d, back), compare))
  {
    var seen := Seen(s, d, back);
    if IsDir(s.disk, d) {
      VisibleDistinct(back, seen.OffDisk());
      DistinctByCount(EnumFilter.Visible(back, seen.OffDisk()));
      EnumCursor.SnapshotHas(seen, compare);
      DistinctByCount(EnumCursor.SnapshotOf(seen, compare));
    }
  }

  /** What the listed layer has is not in the snapshot. */
  lemma SnapshotApart(s: Store, d: Path, listed: seq<Name>, back: seq<Name>, compare: EnumCursor.Compare, n: Name)
    requires Lists(ListedLayer(s, d), d, listed) && Children(s.backing, d, back) && n in listed
    ensures n !in EnumCursor.SnapshotOf(Seen(s, d, back), compare)
  {
    if IsDir(s.disk, d) {
      EnumCursor.SnapshotHas(Seen(s, d, back), compare);
    }
  }

  /** A whole scan gives no name twice, not even one that leaks. */
  lemma ListingDistinct(c: Config, s: Store, d: Path, e: Enumeration, back: seq<Name>)
    requires FullScan(c, s, d, e, back)
    ensures NoDuplicates(Scanned(e))
  {
    hide Scanned, EnumRequery.NamesOf, EnumRequery.HandedBack, EnumRequery.Leaks, EnumCursor.SnapshotOf, NoDuplicates, Seen, EnumScan.ToTheEnd;
    var keeps, extra := Keeps(c, s, d), EnumCursor.SnapshotOf(Seen(s, d, back), e.scan.compare);
    ScannedParts(c, s, d, e, back);
    SnapshotDistinct(s, d, back, e.scan.compare);
    EnumRequery.HandedNames(e.scan.batches, e.scan.Layout(), keeps);
    DeliveredDistinct(e.scan.batches, e.scan.Layout(), keeps);
    var read := Handed(c, s, d, e);
    forall n <- read ensures n !in extra {
      EnumRequery.DeliveredHas(e.scan.batches, e.scan.Layout(), keeps, n);
      SnapshotApart(s, d, e.Names(), back, e.scan.compare, n);
    }
    BothDistinct(read, extra);
  }

  // ---- What is listed and what can be opened ----

  /** A real file without a backing copy that may not be read: listed only to lead somewhere. */
  predicate Unreadable(c: Config, s: Store, p: Path) {
    IsFile(s.disk, p) && !(c.policy(p).redirect && p in s.backing) && !c.policy(p).read
  }

  /** A child can be opened to read exactly when it is listed and is not an unreadable file, or
      it is a directory that the listing misses. */
  lemma ListedOpens(c: Config, s: Store, d: Path, listed: seq<Name>, back: seq<Name>, compare: EnumCursor.Compare, n: Name)
    requires Coherent(c, s) && Rooted(c, s) && Listable(c, s, d) && !Dot(n)
    requires Lists(ListedLayer(s, d), d, listed) && Children(s.backing, d, back)
    ensures var p, o := d + [n], OpenToRead(c, s, d + [n]);
            o.Opened? || o.OpenedDir?
            <==> (n in Enumerated(c, s, d, listed, back, compare) && !Unreadable(c, s, p)) || (Missed(c, s, p) && IsDir(s.disk, p))
  {
    hide Enumerated, Lists, Children, Rooted, Files;
    var p := d + [n];
    EnumeratedAgrees(c, s, d, listed, back, compare, n);
    FilesAt(c, s, p);
    if p in s.disk { assert HasParent(s.disk, p); }
    if p in s.backing { assert HasParent(s.backing, p); }
  }

  // ---- The store stays rooted ----

  /** Only calls that write into the cone, at it or below it, can add to the backing store. */
  lemma BackingOnlyTakes(c: Config, s: Store, p: Path, q: Path, replace: bool, r: Path)
    requires !c.policy(q).redirect
    ensures KeptOrTaken(s.backing, DoRename(c, s, p, q, replace).1.backing, p, r)
  {
    hide OsMove, ResolveDelete, TreeWritable, OsMoveTo, OsMoveDirTo, Shifted;
    assert At(Without(s.backing, p), r) == if p <= r then None else At(s.backing, r);
  }

  lemma OpenOutsideCone(c: Config, s: Store, p: Path, d: Disposition, write: bool, edit: Content -> Content)
    requires !c.policy(p).redirect
    ensures DoOpen(c, s, p, d, write, edit).1.backing == s.backing
  {}

  /** Where a call can put something into the backing store: in the cone, and above it. */
  lemma BackingGrows(c: Config, s: Store, call: Call, r: Path)
    requires call.Rename? ==> Single(s, call.path) || InCone(c, call.dest)
    requires r !in s.backing && r in Step(c, s, call).1.backing
    ensures exists p :: r <= p && c.policy(p).redirect
  {
    hide DoOpen, DoDelete, DoRename;
    match call {
      case Open(p, d, write, edit) =>
        if !(r <= p) { OpenTouchesOnly(c, s, p, d, write, edit, r); }
        if !c.policy(p).redirect { OpenOutsideCone(c, s, p, d, write, edit); }
        assert r <= p;
      case Delete(p) =>
        DeleteOnlyTakes(c, s, p, r);
      case Rename(p, q, replace) =>
        if !(r <= q) && (!(q <= r) || Single(s, p)) { RenameOnlyTakes(c, s, p, q, replace, r); }
        if !c.policy(q).redirect { BackingOnlyTakes(c, s, p, q, replace, r); }
        if q <= r && !Single(s, p) { assert r <= r && c.policy(r).redirect; }
        assert r <= q || q <= r;
    }
  }

  lemma ScopeTame(c: Config, s: Store, call: Call)
    requires Rooted(c, s) && InScope(c, s, call)
    ensures Tame(s, call) && (call.Rename? ==> Single(s, call.path) || InCone(c, call.dest))
  {
    if call.Rename? { FilesAt(c, s, call.path); }
  }

  lemma RootedStep(c: Config, s: Store, call: Call)
    requires Coherent(c, s) && Rooted(c, s) && InScope(c, s, call)
    ensures Rooted(c, Step(c, s, call).1)
  {
    hide Step, InScope;
    var t := Step(c, s, call).1;
    ScopeTame(c, s, call);
    forall r | r in t.backing ensures c.policy(r).redirect || IsDir(t.disk, r) {
      if r !in s.backing {
        BackingGrows(c, s, call, r);
        var p :| r <= p && c.policy(p).redirect;
        assert r == p || r < p;
      }
      if IsDir(s.disk, r) { DirsKept(c, s, call, r); }
    }
  }

  lemma FreshRooted(c: Config, disk: Layer)
    requires Closed(disk)
    ensures Rooted(c, Store(disk, map[[] := Dir]))
  {}

  /** Well-behaved runs keep what listings rely on. */
  lemma {:induction false} RunRooted(c: Config, s: Store, calls: seq<Call>)
    requires Coherent(c, s) && Rooted(c, s) && WellBehaved(c, s, calls)
    ensures Coherent(c, Run(c, s, calls)) && Rooted(c, Run(c, s, calls))
  {
    hide *;
    RunRefines(c, s, calls);
    if calls != [] {
      var n := |calls| - 1;
      FrontBehaved(c, s, calls);
      RunRooted(c, s, calls[..n]);
      RootedStep(c, Run(c, s, calls[..n]), calls[n]);
    } else {
      RunNothing(c, s);
    }
  }

  lemma RunNothing(c: Config, s: Store)
    ensures Run(c, s, []) == s
  {}

  lemma FrontBehaved(c: Config, s: Store, calls: seq<Call>)
    requires calls != [] && WellBehaved(c, s, calls)
    ensures var n := |calls| - 1;
            && WellBehaved(c, s, calls[..n]) && InScope(c, Run(c, s, calls[..n]), calls[n])
            && Run(c, s, calls) == Step(c, Run(c, s, calls[..n]), calls[n]).1
  {
    hide Step, InScope, Diverges;
    var front := calls[..|calls| - 1];
    forall i | 0 <= i < |front| ensures front[..i] == calls[..i] && front[i] == calls[i] {}
  }

  /** So listings agree in every state that a well-behaved run reaches from a fresh overlay. */
  lemma ReachedListingAgrees(c: Config, disk: Layer, calls: seq<Call>, d: Path, e: Enumeration, back: seq<Name>, n: Name)
    requires var s := Store(disk, map[[] := Dir]);
             && Closed(disk) && ConeAnchored(c, disk) && WellBehaved(c, s, calls)
             && Listable(c, Run(c, s, calls), d) && FullScan(c, Run(c, s, calls), d, e, back)
    requires !Dot(n)
    ensures var s := Run(c, Store(disk, map[[] := Dir]), calls);
            n in Scanned(e) <==> (d + [n] in Files(c, s) && !Missed(c, s, d + [n])) || Leaked(c, s, d, e, n)
  {
    hide Run, WellBehaved, FullScan, Scanned, Files, Missed, Leaked, Listable, Coherent, Rooted;
    var s := Store(disk, map[[] := Dir]);
    Fresh(c, disk);
    RunRooted(c, s, calls);
    ListingAgrees(c, Run(c, s, calls), d, e, back, n);
  }

  lemma Fresh(c: Config, disk: Layer)
    requires Closed(disk) && ConeAnchored(c, disk)
    ensures Coherent(c, Store(disk, map[[] := Dir])) && Rooted(c, Store(disk, map[[] := Dir]))
  {
    FreshCoherent(c, disk);
    FreshRooted(c, disk);
  }
}
