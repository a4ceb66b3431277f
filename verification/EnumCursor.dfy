/** Which overlay entries an enumeration of a directory appends, and in what order: the
    snapshot of a handle, its wildcard and its emit-once cursor. */
module EnumCursor {
  import opened Optional
  import opened Words
  import opened DirRecords
  import opened EnumFilter
  import opened EnumRequery
  import opened Ordering

  type Pattern = seq<WChar>

  const STATUS_SUCCESS: NtStatus := 0
  const STATUS_NO_MORE_FILES: NtStatus := 0x8000_0006
  const STATUS_NO_SUCH_FILE: NtStatus := 0xC000_000F

  /** How this machine compares names: `_wcsicmp` folds case, `RtlIsNameInExpression` matches. */
  datatype Compare = Compare(fold: Name -> Name, matches: (Name, Pattern) -> bool)
  {
    predicate Before(a: Name, b: Name) {
      Less(fold(a), fold(b))
    }

    /** An empty expression, `*` and `*.*` match everything. */
    predicate NameMatchesFilter(name: Name, expr: Pattern) {
      expr == [] || expr == [42] || expr == [42, 46, 42] || matches(name, expr)
    }
  }

  /** The enumerated directory as one call sees it: whether its path is known, whether it is a
      directory of the real disk, its backing children, and what the real disk has in it. */
  datatype Directory = Directory(named: bool, isDirectory: bool, children: seq<Name>, onDisk: Name -> bool)
  {
    function OffDisk(): Name -> bool {
      n => !onDisk(n)
    }
  }

  ghost predicate InOrder(ns: seq<Name>, compare: Compare) {
    forall i, j :: 0 <= i < j < |ns| ==> !compare.Before(ns[j], ns[i])
  }

  function Insert(n: Name, ns: seq<Name>, compare: Compare): (r: seq<Name>)
    ensures multiset(r) == multiset(ns) + multiset{n}
  {
    if ns == [] || compare.Before(n, ns[0]) then [n] + ns
    else
      assert ns == [ns[0]] + ns[1..];
      [ns[0]] + Insert(n, ns[1..], compare)
  }

  /** `std::sort` by case-insensitive comparison. */
  function SortNames(ns: seq<Name>, compare: Compare): (r: seq<Name>)
    ensures multiset(r) == multiset(ns)
  {
    if ns == [] then []
    else
      assert ns == [ns[0]] + ns[1..];
      Insert(ns[0], SortNames(ns[1..], compare), compare)
  }

  lemma {:induction false} InsertInOrder(n: Name, ns: seq<Name>, compare: Compare)
    requires InOrder(ns, compare)
    ensures InOrder(Insert(n, ns, compare), compare)
  {
    var r := Insert(n, ns, compare);
    if ns == [] {
    } else if compare.Before(n, ns[0]) {
      forall j | 0 <= j < |ns| ensures !compare.Before(ns[j], n) {
        if compare.Before(ns[j], n) {
          LessTransitive(compare.fold(ns[j]), compare.fold(n), compare.fold(ns[0]));
          if j == 0 { LessAsymmetric(compare.fold(n), compare.fold(ns[0])); }
        }
      }
    } else {
      var rest := Insert(n, ns[1..], compare);
      InsertInOrder(n, ns[1..], compare);
      forall j | 0 <= j < |rest| ensures !compare.Before(rest[j], ns[0]) {
        assert rest[j] in multiset(rest);
        if rest[j] != n {
          assert rest[j] in ns[1..];
          var k :| 0 <= k < |ns[1..]| && ns[1..][k] == rest[j];
          assert ns[k + 1] == rest[j];
        }
      }
      assert r == [ns[0]] + rest;
    }
  }

  lemma {:induction false} SortInOrder(ns: seq<Name>, compare: Compare)
    ensures InOrder(SortNames(ns, compare), compare)
  {
    if ns != [] {
      SortInOrder(ns[1..], compare);
      InsertInOrder(ns[0], SortNames(ns[1..], compare), compare);
    }
  }

  /** What a scan of this directory appends: the backing children that the real disk lacks,
      in order. A directory that is not on the real disk was listed from the backing store. */
  function SnapshotOf(d: Directory, compare: Compare): (ns: seq<Name>) {
    if d.named && d.isDirectory then SortNames(Visible(d.children, d.OffDisk()), compare) else []
  }

  /** The snapshot has each backing child that the real disk lacks, as often as the backing
      directory lists it, in case-insensitive order. */
  lemma SnapshotHas(d: Directory, compare: Compare)
    requires d.named && d.isDirectory
    ensures var ns := SnapshotOf(d, compare);
            forall i, j :: 0 <= i < j < |ns| ==> !Less(compare.fold(ns[j]), compare.fold(ns[i]))
    ensures multiset(SnapshotOf(d, compare)) == multiset(Visible(d.children, d.OffDisk()))
    ensures forall n :: n in SnapshotOf(d, compare) <==> n in d.children && !d.onDisk(n)
  {
    var ns := Visible(d.children, d.OffDisk());
    SortInOrder(ns, compare);
    forall n ensures n in SortNames(ns, compare) <==> n in ns {
      assert n in multiset(SortNames(ns, compare)) <==> n in multiset(ns);
    }
    forall n ensures n in ns <==> n in d.children && !d.onDisk(n) {
      VisibleHas(d.children, d.OffDisk(), n);
    }
  }

  // ---- The cursor ----

  /** One open directory handle. */
  datatype Handle = Handle(started: bool, cursor: nat, snapshot: seq<Name>, filter: Pattern, filterSet: bool)
  {
    predicate Valid() {
      cursor <= |snapshot| && (!started ==> cursor == 0) && (!filterSet ==> filter == [])
    }

    /** The snapshot is taken once per scan. */
    function Ensure(d: Directory, compare: Compare): (h: Handle)
      ensures Valid() ==> h.Valid() && h.started && h.cursor == cursor && h.filter == filter
    {
      if started then this else this.(started := true, snapshot := SnapshotOf(d, compare))
    }

    function Restarted(): Handle {
      this.(started := false, cursor := 0, snapshot := [])
    }

    /** The first pattern given in a scan is kept until a restart. */
    function Captured(pattern: Option<Pattern>, restart: bool): (h: Handle)
      ensures Valid() ==> h.Valid()
    {
      var h := if restart then this.(filterSet := false, filter := []) else this;
      if !h.filterSet && pattern.Some? && pattern.value != [] then h.(filter := pattern.value, filterSet := true) else h
    }

    /** What is still to be emitted. */
    ghost function Left(compare: Compare): seq<Name>
      requires Valid()
    {
      Matching(snapshot[cursor..], filter, compare)
    }
  }

  function Matching(ns: seq<Name>, filter: Pattern, compare: Compare): (ms: seq<Name>) {
    if ns == [] then []
    else if compare.NameMatchesFilter(ns[0], filter) then [ns[0]] + Matching(ns[1..], filter, compare)
    else Matching(ns[1..], filter, compare)
  }

  function AlignUp8(v: nat): (r: nat)
    ensures v <= 0xFFFF_FFF8 ==> v <= r < v + 8 && r % 8 == 0
  {
    (v + 7) % 0x1_0000_0000 / 8 * 8
  }

  function RecordSize(l: Layout, n: Name): nat {
    l.nameOff + 2 * |n|
  }

  /** The names that fit from byte `at` on, and how many snapshot entries that uses up. */
  function Take(ns: seq<Name>, filter: Pattern, compare: Compare, l: Layout, length: nat, at: nat, single: bool): (r: (seq<Name>, nat)) {
    if ns == [] then ([], 0)
    else if !compare.NameMatchesFilter(ns[0], filter) then
      var r := Take(ns[1..], filter, compare, l, length, at, single);
      (r.0, r.1 + 1)
    else if at + RecordSize(l, ns[0]) > length then ([], 0)
    else if single then ([ns[0]], 1)
    else
      var r := Take(ns[1..], filter, compare, l, length, AlignUp8(at + RecordSize(l, ns[0])), single);
      ([ns[0]] + r.0, r.1 + 1)
  }

  /** Nothing is lost or repeated by one buffer. */
  lemma {:induction false} TakeConserves(ns: seq<Name>, filter: Pattern, compare: Compare, l: Layout, length: nat, at: nat, single: bool)
    ensures var (e, n) := Take(ns, filter, compare, l, length, at, single);
            n <= |ns| && e + Matching(ns[n..], filter, compare) == Matching(ns, filter, compare)
            && (e == [] <==> Matching(ns, filter, compare) == [] || at + RecordSize(l, Matching(ns, filter, compare)[0]) > length)
  {
    if ns != [] {
      if !compare.NameMatchesFilter(ns[0], filter) {
        TakeConserves(ns[1..], filter, compare, l, length, at, single);
      } else if at + RecordSize(l, ns[0]) <= length && !single {
        TakeConserves(ns[1..], filter, compare, l, length, AlignUp8(at + RecordSize(l, ns[0])), single);
      }
    }
  }

  /** The records of all these names fit, one after the other from byte `at` on. */
  predicate AllFit(ns: seq<Name>, l: Layout, length: nat, at: nat) {
    ns == [] || (at + RecordSize(l, ns[0]) <= length && AllFit(ns[1..], l, length, AlignUp8(at + RecordSize(l, ns[0]))))
  }

  /** One buffer takes all that matches exactly when it has room for it, and more than one entry
      was asked for if there is more than one. */
  lemma {:induction false} TakeAll(ns: seq<Name>, filter: Pattern, compare: Compare, l: Layout, length: nat, at: nat, single: bool)
    ensures var ms := Matching(ns, filter, compare);
            Take(ns, filter, compare, l, length, at, single).0 == ms <==> AllFit(ms, l, length, at) && (single ==> |ms| <= 1)
  {
    hide AlignUp8, RecordSize, Compare.NameMatchesFilter;
    if ns != [] {
      var ms := Matching(ns[1..], filter, compare);
      var after := AlignUp8(at + RecordSize(l, ns[0]));
      if !compare.NameMatchesFilter(ns[0], filter) {
        TakeAll(ns[1..], filter, compare, l, length, at, single);
      } else {
        TakeAll(ns[1..], filter, compare, l, length, after, single);
        assert ([ns[0]] + ms)[1..] == ms;
      }
    }
  }

  /** Which statuses say that the real scan is done. */
  predicate Exhausted(status: NtStatus) {
    status == STATUS_NO_MORE_FILES || status == STATUS_NO_SUCH_FILE
  }

  /** One query of the handle, after the real one ended with `status`. */
  datatype Query = Query(dir: Directory, infoClass: nat, length: nat, single: bool, restart: bool, status: NtStatus)

  /** The handle after a query, and the names spliced in. */
  function Splice(h: Handle, q: Query, compare: Compare): (r: (Handle, seq<Name>))
    requires h.Valid()
    ensures r.0.Valid()
  {
    match TryGetDirInfoLayout(q.infoClass)
    case None => (h, [])
    case Some(l) =>
      if q.dir.named && !q.dir.isDirectory then (h, [])
      else
        var g := (if q.restart then h.Restarted() else h).Ensure(q.dir, compare);
        if !Exhausted(q.status) then (g, [])
        else
          TakeConserves(g.snapshot[g.cursor..], g.filter, compare, l, q.length, 0, q.single);
          var r := Take(g.snapshot[g.cursor..], g.filter, compare, l, q.length, 0, q.single);
          (g.(cursor := g.cursor + r.1), r.0)
  }

  /** How many entries to pass over before the first one that matches. */
  function Unmatched(ns: seq<Name>, filter: Pattern, compare: Compare): (k: nat)
    ensures k <= |ns|
    ensures k < |ns| ==> compare.NameMatchesFilter(ns[k], filter)
    ensures forall i :: 0 <= i < k ==> !compare.NameMatchesFilter(ns[i], filter)
  {
    if ns == [] || compare.NameMatchesFilter(ns[0], filter) then 0 else 1 + Unmatched(ns[1..], filter, compare)
  }

  /** The handle after a `FindNextFile` past the real entries, and the name it gives. */
  function FindNext(h: Handle, d: Directory, compare: Compare): (r: (Handle, Option<Name>))
    requires h.Valid()
    ensures r.0.Valid()
  {
    var g := h.Ensure(d, compare);
    var k := g.cursor + Unmatched(g.snapshot[g.cursor..], g.filter, compare);
    if k == |g.snapshot| then (g.(cursor := k), None) else (g.(cursor := k + 1), Some(g.snapshot[k]))
  }

  lemma {:induction false} UnmatchedConserves(ns: seq<Name>, filter: Pattern, compare: Compare)
    ensures var k := Unmatched(ns, filter, compare);
            Matching(ns, filter, compare) == if k == |ns| then [] else [ns[k]] + Matching(ns[k + 1..], filter, compare)
  {
    if ns != [] && !compare.NameMatchesFilter(ns[0], filter) {
      UnmatchedConserves(ns[1..], filter, compare);
      var k := Unmatched(ns[1..], filter, compare);
      if k < |ns[1..]| { assert ns[1..][k + 1..] == ns[k + 2..]; }
    }
  }

  // ---- Whole scans ----

  /** One call on the handle: a query, with the pattern it gives if any; a query by
      `GetFileInformationByHandleEx`, which gives none and leaves the one captured alone even
      when it restarts the scan; or a `FindNextFile` past the real entries. */
  datatype Request = Nt(query: Query, pattern: Option<Pattern>) | ByHandle(query: Query) | Find(dir: Directory)
  {
    /** The pattern that the call offers for capture. */
    function Given(): Option<Pattern> {
      if Nt? && pattern.Some? && pattern.value != [] then pattern else None
    }

    predicate Restarts() {
      !Find? && query.restart
    }

    function Asked(): Directory {
      if Find? then dir else query.dir
    }
  }

  function Serve(h: Handle, r: Request, compare: Compare): (s: (Handle, seq<Name>))
    requires h.Valid()
    ensures s.0.Valid()
  {
    match r
    case Nt(q, pattern) => Splice(h.Captured(pattern, q.restart), q, compare)
    case ByHandle(q) => Splice(h, q, compare)
    case Find(d) =>
      var (g, n) := FindNext(h, d, compare);
      (g, if n == None then [] else [n.value])
  }

  /** The names emitted by a run of calls, in order. */
  function ServeAll(h: Handle, rs: seq<Request>, compare: Compare): (s: (Handle, seq<Name>))
    requires h.Valid()
    ensures s.0.Valid()
    decreases |rs|
  {
    if rs == [] then (h, [])
    else
      var (g, e) := Serve(h, rs[0], compare);
      var (f, es) := ServeAll(g, rs[1..], compare);
      (f, e + es)
  }

  lemma SpliceConserves(h: Handle, q: Query, compare: Compare)
    requires h.Valid() && h.started && !q.restart
    ensures var (g, e) := Splice(h, q, compare);
            g == h.(cursor := g.cursor) && e + g.Left(compare) == h.Left(compare)
  {
    hide Take, Matching, SnapshotOf;
    var layout := TryGetDirInfoLayout(q.infoClass);
    if layout.Some? {
      var ns := h.snapshot[h.cursor..];
      TakeConserves(ns, h.filter, compare, layout.value, q.length, 0, q.single);
      var n := Take(ns, h.filter, compare, layout.value, q.length, 0, q.single).1;
      assert ns[n..] == h.snapshot[h.cursor + n..];
    }
  }

  lemma FindConserves(h: Handle, d: Directory, compare: Compare)
    requires h.Valid() && h.started
    ensures var (g, n) := FindNext(h, d, compare);
            g == h.(cursor := g.cursor)
            && h.Left(compare) == if n == None then [] else [n.value] + g.Left(compare)
    ensures FindNext(h, d, compare).1 == None ==> FindNext(h, d, compare).0.Left(compare) == []
  {
    hide SnapshotOf, Unmatched, Matching;
    var ns := h.snapshot[h.cursor..];
    UnmatchedConserves(ns, h.filter, compare);
    UnmatchedConserves([], h.filter, compare);
    var k := Unmatched(ns, h.filter, compare);
    if k < |ns| {
      assert ns[k + 1..] == h.snapshot[h.cursor + k + 1..];
    } else {
      assert h.snapshot[h.cursor + k..] == [];
    }
  }

  /** The pattern of the scan is settled: it has been captured, or the call gives none. */
  predicate Settled(h: Handle, r: Request) {
    h.filterSet || r.Given() == None
  }

  /** Each call emits a front part of what is left, whatever the directory has become by then. */
  lemma ServeConserves(h: Handle, r: Request, compare: Compare)
    requires h.Valid() && h.started && !r.Restarts() && Settled(h, r)
    ensures var (g, e) := Serve(h, r, compare);
            g == h.(cursor := g.cursor) && e + g.Left(compare) == h.Left(compare)
  {
    hide Splice, FindNext, Matching;
    match r {
      case Nt(q, _) => SpliceConserves(h, q, compare);
      case ByHandle(q) => SpliceConserves(h, q, compare);
      case Find(d) => FindConserves(h, d, compare);
    }
  }

  /** Over any run of calls of all kinds, what is emitted and what is left make up what was left
      before: in order, each entry once. */
  lemma {:induction false} EmitOnce(h: Handle, rs: seq<Request>, compare: Compare)
    requires h.Valid() && h.started && forall r <- rs :: !r.Restarts() && Settled(h, r)
    ensures var (g, e) := ServeAll(h, rs, compare);
            g == h.(cursor := g.cursor) && e + g.Left(compare) == h.Left(compare)
    decreases |rs|
  {
    hide Serve, Matching, Request.Restarts, Request.Given;
    if rs != [] {
      var (g, e) := Serve(h, rs[0], compare);
      ServeConserves(h, rs[0], compare);
      assert forall r <- rs[1..] :: r in rs;
      EmitOnce(g, rs[1..], compare);
      var (f, es) := ServeAll(g, rs[1..], compare);
      assert (e + es) + f.Left(compare) == e + (es + f.Left(compare));
    }
  }

  // ---- The pattern of a scan ----

  /** The first pattern that a run of calls offers. */
  function FirstGiven(rs: seq<Request>): Option<Pattern> {
    if rs == [] then None
    else if rs[0].Given().Some? then rs[0].Given()
    else FirstGiven(rs[1..])
  }

  lemma SplicePattern(h: Handle, q: Query, compare: Compare)
    requires h.Valid()
    ensures var g := Splice(h, q, compare).0; g.filter == h.filter && g.filterSet == h.filterSet
  {
    hide Take, SnapshotOf, TryGetDirInfoLayout;
  }

  /** Until a query restarts the scan its pattern is the first one offered, whichever call
      offers it and whatever is offered after it. */
  lemma {:induction false} PatternKept(h: Handle, rs: seq<Request>, compare: Compare)
    requires h.Valid() && forall r <- rs :: r.Nt? ==> !r.query.restart
    ensures var g := ServeAll(h, rs, compare).0;
            && (g.filterSet <==> h.filterSet || FirstGiven(rs).Some?)
            && g.filter == if h.filterSet then h.filter else if FirstGiven(rs).Some? then FirstGiven(rs).value else []
    decreases |rs|
  {
    hide Splice, SnapshotOf, Unmatched;
    if rs != [] {
      var g := Serve(h, rs[0], compare).0;
      match rs[0] {
        case Nt(q, pattern) => SplicePattern(h.Captured(pattern, q.restart), q, compare);
        case ByHandle(q) => SplicePattern(h, q, compare);
        case Find(_) =>
      }
      assert rs[0] in rs && forall r <- rs[1..] :: r in rs;
      PatternKept(g, rs[1..], compare);
    }
  }

  lemma {:induction false} ServeTwice(h: Handle, a: seq<Request>, b: seq<Request>, compare: Compare)
    requires h.Valid()
    ensures var (g, e) := ServeAll(h, a, compare);
            var (f, es) := ServeAll(g, b, compare);
            ServeAll(h, a + b, compare) == (f, e + es)
    decreases |a|
  {
    hide Serve;
    if a == [] {
      var es := ServeAll(h, b, compare).1;
      assert a + b == b && [] + es == es;
    } else {
      assert (a + b)[1..] == a[1..] + b;
      var (g, e) := Serve(h, a[0], compare);
      ServeTwice(g, a[1..], b, compare);
      var (f, es) := ServeAll(g, a[1..], compare);
      var (f', es') := ServeAll(f, b, compare);
      assert (e + es) + es' == e + (es + es');
    }
  }

  /** Calls that offer the pattern `p` when none has been captured do so before they serve. */
  lemma ServeCaptures(h: Handle, rs: seq<Request>, compare: Compare)
    requires h.Valid() && !h.filterSet && rs != [] && rs[0].Given().Some? && !rs[0].Restarts()
    ensures var g := h.(filter := rs[0].Given().value, filterSet := true);
            g.Valid() && ServeAll(h, rs, compare) == ServeAll(g, rs, compare)
  {
    hide Splice;
  }

  /** No pattern, an empty one, `*` and `*.*`. */
  predicate MatchesEverything(p: Pattern) {
    p == [] || p == [42] || p == [42, 46, 42]
  }

  lemma {:induction false} MatchesAll(ns: seq<Name>, p: Pattern, compare: Compare)
    requires MatchesEverything(p)
    ensures Matching(ns, p, compare) == ns
  {
    if ns != [] { MatchesAll(ns[1..], p, compare); }
  }

  /** With any other pattern the expression decides: exactly the names it matches are taken. */
  lemma {:induction false} MatchingHas(ns: seq<Name>, p: Pattern, compare: Compare, n: Name)
    ensures n in Matching(ns, p, compare) <==> n in ns && (MatchesEverything(p) || compare.matches(n, p))
  {
    if ns != [] { MatchingHas(ns[1..], p, compare, n); }
  }

  lemma {:induction false} MatchingConcat(a: seq<Name>, b: seq<Name>, filter: Pattern, compare: Compare)
    ensures Matching(a + b, filter, compare) == Matching(a, filter, compare) + Matching(b, filter, compare)
  {
    if a == [] {
      assert a + b == b;
    } else {
      assert (a + b)[1..] == a[1..] + b;
      MatchingConcat(a[1..], b, filter, compare);
    }
  }

  lemma {:induction false} MatchingSame(ns: seq<Name>, filter: Pattern, compare: Compare)
    ensures |Matching(ns, filter, compare)| <= |ns|
    ensures |Matching(ns, filter, compare)| == |ns| <==> forall n <- ns :: compare.NameMatchesFilter(n, filter)
    ensures Matching(ns, filter, compare) == ns <==> forall n <- ns :: compare.NameMatchesFilter(n, filter)
  {
    if ns != [] {
      MatchingSame(ns[1..], filter, compare);
      assert ns == [ns[0]] + ns[1..];
    }
  }

  /** Before any pattern is captured the run emits a front part of the snapshot itself. */
  lemma UnfilteredRun(h: Handle, rs: seq<Request>, compare: Compare)
    requires h.Valid() && h.started && !h.filterSet && forall r <- rs :: !r.Restarts() && r.Given() == None
    ensures var (g, e) := ServeAll(h, rs, compare);
            g == h.(cursor := g.cursor) && e + g.snapshot[g.cursor..] == h.snapshot[h.cursor..]
  {
    hide Serve, ServeAll, Matching;
    EmitOnce(h, rs, compare);
    var g := ServeAll(h, rs, compare).0;
    MatchesAll(h.snapshot[h.cursor..], [], compare);
    MatchesAll(g.snapshot[g.cursor..], [], compare);
  }

  /** From then on it emits what matches. */
  lemma CapturingRun(h: Handle, rs: seq<Request>, compare: Compare)
    requires h.Valid() && h.started && !h.filterSet && rs != [] && rs[0].Given().Some? && forall r <- rs :: !r.Restarts()
    ensures var (g, e) := ServeAll(h, rs, compare);
            e + g.Left(compare) == Matching(h.snapshot[h.cursor..], rs[0].Given().value, compare)
  {
    hide Serve, ServeAll, Matching;
    assert rs[0] in rs;
    ServeCaptures(h, rs, compare);
    EmitOnce(h.(filter := rs[0].Given().value, filterSet := true), rs, compare);
  }

  /** A pattern that comes late, after `before` has been emitted: what is emitted and left in
      the end is the matching part of the snapshot exactly if `before` matches, and the whole
      snapshot exactly if all the rest does. */
  lemma LatePattern(h: Handle, rs: seq<Request>, k: nat, compare: Compare)
    requires h.Valid() && h.started && !h.filterSet && (forall r <- rs :: !r.Restarts())
    requires k < |rs| && rs[k].Given().Some? && forall r <- rs[..k] :: r.Given() == None
    ensures var p, ns, before := rs[k].Given().value, h.snapshot[h.cursor..], ServeAll(h, rs[..k], compare).1;
            var (g, e) := ServeAll(h, rs, compare);
            && before <= ns
            && e + g.Left(compare) == before + Matching(ns[|before|..], p, compare)
            && (e + g.Left(compare) == Matching(ns, p, compare) <==> forall n <- before :: compare.NameMatchesFilter(n, p))
            && (e + g.Left(compare) == ns <==> forall n <- ns[|before|..] :: compare.NameMatchesFilter(n, p))
  {
    hide Serve, ServeAll, Matching, Compare.NameMatchesFilter, Handle.Left, Request.Restarts, Request.Given;
    var p, ns := rs[k].Given().value, h.snapshot[h.cursor..];
    assert forall r <- rs[..k] :: r in rs;
    assert forall r <- rs[k..] :: r in rs;
    UnfilteredRun(h, rs[..k], compare);
    var (f, before) := ServeAll(h, rs[..k], compare);
    var rest := f.snapshot[f.cursor..];
    assert rest == ns[|before|..];
    assert rs == rs[..k] + rs[k..] && rs[k..][0] == rs[k];
    ServeTwice(h, rs[..k], rs[k..], compare);
    CapturingRun(f, rs[k..], compare);
    var (g, es) := ServeAll(f, rs[k..], compare);
    assert (before + es) + g.Left(compare) == before + (es + g.Left(compare));
    LateIs(ns, before, rest, p, compare);
  }

  lemma LateIs(ns: seq<Name>, before: seq<Name>, rest: seq<Name>, p: Pattern, compare: Compare)
    requires before + rest == ns
    ensures before + Matching(rest, p, compare) == Matching(ns, p, compare) <==> forall n <- before :: compare.NameMatchesFilter(n, p)
    ensures before + Matching(rest, p, compare) == ns <==> forall n <- rest :: compare.NameMatchesFilter(n, p)
  {
    hide Matching, Compare.NameMatchesFilter;
    MatchingConcat(before, rest, p, compare);
    MatchingSame(before, p, compare);
    MatchingSame(rest, p, compare);
    var all, left := Matching(before, p, compare), Matching(rest, p, compare);
    if before + left == all + left {
      assert |before| == |all| && before == (before + left)[..|before|] && all == (all + left)[..|all|];
    }
    if before + left == before + rest {
      assert left == (before + left)[|before|..] && rest == (before + rest)[|before|..];
    }
  }

  const ExactMatch := Compare(n => n, (n: Name, p: Pattern) => n == p)

  /** A concrete late pattern: of three entries the scan emits the first unasked, then the one
      that matches; that is the listing for neither pattern. */
  lemma LatePatternMixes()
    ensures var h := Handle(true, 0, [[97], [98], [97]], [], false);
            var q := Query(Directory(true, true, [], _ => false), 12, 64, true, false, STATUS_NO_MORE_FILES);
            var (g, e) := ServeAll(h, [Nt(q, None), Nt(q, Some([98]))], ExactMatch);
            && e == [[97], [98]] && g.Left(ExactMatch) == []
            && Matching(h.snapshot, [], ExactMatch) == [[97], [98], [97]] && Matching(h.snapshot, [98], ExactMatch) == [[98]]
  {
    var h := Handle(true, 0, [[97], [98], [97]], [], false);
    var q := Query(Directory(true, true, [], _ => false), 12, 64, true, false, STATUS_NO_MORE_FILES);
    assert TryGetDirInfoLayout(12) == Some(Layout(8, 12));
    var g := h.(cursor := 1);
    assert h.snapshot[0..] == h.snapshot;
    assert Serve(h, Nt(q, None), ExactMatch) == (g, [[97]]);
    var f := Handle(true, 2, h.snapshot, [98], true);
    assert h.snapshot[1..] == [[98], [97]] && h.snapshot[2..] == [[97]];
    assert Serve(g, Nt(q, Some([98])), ExactMatch) == (f, [[98]]);
    var rs := [Nt(q, None), Nt(q, Some([98]))];
    assert rs[1..] == [Nt(q, Some([98]))] && rs[1..][1..] == [];
    assert ServeAll(f, [], ExactMatch) == (f, []);
    assert [[97]] + ([[98]] + []) == [[97], [98]];
    MatchesAll(h.snapshot, [], ExactMatch);
    assert Matching([[97]], [98], ExactMatch) == [] && Matching([[98], [97]], [98], ExactMatch) == [[98]];
  }

  // ---- Everything is emitted ----

  /** A call that can emit the next entry: the real scan is done and its record fits. */
  ghost predicate Delivers(r: Request, ns: seq<Name>) {
    r.Find?
    || (&& TryGetDirInfoLayout(r.query.infoClass).Some? && r.query.status in {0x8000_0006, 0xC000_000F} && (r.query.dir.named ==> r.query.dir.isDirectory)
        && forall n <- ns :: RecordSize(TryGetDirInfoLayout(r.query.infoClass).value, n) <= r.query.length)
  }

  /** How many calls of a run can. */
  ghost function Chances(rs: seq<Request>, ns: seq<Name>): (k: nat)
    ensures k <= |rs|
  {
    if rs == [] then 0 else (if Delivers(rs[0], ns) then 1 else 0) + Chances(rs[1..], ns)
  }

  /** Such a call emits something, unless nothing is left. */
  lemma DeliversSome(h: Handle, r: Request, compare: Compare)
    requires h.Valid() && h.started && !r.Restarts() && Settled(h, r) && Delivers(r, h.Left(compare))
    ensures Serve(h, r, compare).1 == [] <==> h.Left(compare) == []
  {
    hide Matching, Take;
    if r.Find? {
      FindConserves(h, r.dir, compare);
    } else {
      var q := r.query;
      TakeConserves(h.snapshot[h.cursor..], h.filter, compare, TryGetDirInfoLayout(q.infoClass).value, q.length, 0, q.single);
    }
  }

  lemma {:induction false} ChancesFewer(rs: seq<Request>, e: seq<Name>, ns: seq<Name>)
    ensures Chances(rs, e + ns) <= Chances(rs, ns)
  {
    if rs != [] {
      forall n <- ns ensures n in e + ns {}
      ChancesFewer(rs[1..], e, ns);
    }
  }

  /** A run with as many such calls as there are matching entries emits them all; then the scan
      stays exhausted. */
  lemma {:induction false} EmitsAll(h: Handle, rs: seq<Request>, compare: Compare)
    requires h.Valid() && h.started && forall r <- rs :: !r.Restarts() && Settled(h, r)
    requires Chances(rs, h.Left(compare)) >= |h.Left(compare)|
    ensures ServeAll(h, rs, compare).1 == h.Left(compare) && ServeAll(h, rs, compare).0.Left(compare) == []
    decreases |rs|
  {
    hide Serve, Matching, Delivers;
    if rs != [] {
      var (g, e) := Serve(h, rs[0], compare);
      assert rs[0] in rs && forall r <- rs[1..] :: r in rs;
      ServeConserves(h, rs[0], compare);
      if Delivers(rs[0], h.Left(compare)) { DeliversSome(h, rs[0], compare); }
      ChancesFewer(rs[1..], e, g.Left(compare));
      EmitsAll(g, rs[1..], compare);
    }
  }

  /** The call begins a scan of `d`: the handle is new, or the call restarts it. */
  ghost predicate Begins(h: Handle, r: Request, d: Directory) {
    r.Asked() == d && d.named && d.isDirectory && (!h.started || r.Restarts()) && (!r.Find? ==> TryGetDirInfoLayout(r.query.infoClass).Some?)
  }

  /** The handle once the call has captured its pattern and taken the snapshot. */
  function Begun(h: Handle, r: Request, compare: Compare): (g: Handle)
    requires h.Valid()
    ensures g.Valid()
  {
    var f := if r.Nt? then h.Captured(r.pattern, r.query.restart) else h;
    (if r.Restarts() then f.Restarted() else f).Ensure(r.Asked(), compare)
  }

  /** The same call in mid-scan. */
  function Continuing(r: Request): Request {
    match r
    case Nt(q, _) => Nt(q.(restart := false), None)
    case ByHandle(q) => ByHandle(q.(restart := false))
    case Find(_) => r
  }

  /** The first call takes pattern and snapshot, then serves as any later one. */
  lemma FirstCall(h: Handle, r: Request, d: Directory, compare: Compare)
    requires h.Valid() && Begins(h, r, d)
    ensures var g := Begun(h, r, compare);
            && Serve(h, r, compare) == Serve(g, Continuing(r), compare)
            && g.started && g.snapshot == SnapshotOf(d, compare) && g.cursor == 0
            && g.Left(compare) == Matching(SnapshotOf(d, compare), g.filter, compare)
  {
    hide Matching, SnapshotOf, Take, Unmatched, TryGetDirInfoLayout;
    var g := Begun(h, r, compare);
    assert g.snapshot[0..] == g.snapshot;
  }

  /** The pattern of a scan: that of its first query, unless that is a `FindNextFile` or a query by
      handle, or one in mid-capture that does not restart: then what was captured before. */
  function FirstPattern(h: Handle, r: Request): Pattern {
    match r
    case Nt(q, pattern) =>
      if !q.restart && h.filterSet then h.filter else if pattern == None then [] else pattern.value
    case ByHandle(_) => h.filter
    case Find(_) => h.filter
  }

  /** From its first call on, a scan of a directory emits the part of its snapshot that matches
      the pattern of that call; if it gave none, no later call may. */
  lemma ScanEmits(h: Handle, d: Directory, rs: seq<Request>, compare: Compare)
    requires h.Valid() && rs != [] && Begins(h, rs[0], d)
    requires forall r <- rs[1..] :: !r.Restarts() && Settled(Begun(h, rs[0], compare), r)
    requires var ms := Matching(SnapshotOf(d, compare), Begun(h, rs[0], compare).filter, compare); Chances(rs, ms) >= |ms|
    ensures ServeAll(h, rs, compare).1 == Matching(SnapshotOf(d, compare), FirstPattern(h, rs[0]), compare)
  {
    hide Matching, SnapshotOf, Serve, Begun, FirstPattern;
    BegunPattern(h, rs[0], compare);
    FirstCall(h, rs[0], d, compare);
    var g, cs := Begun(h, rs[0], compare), [Continuing(rs[0])] + rs[1..];
    assert cs[1..] == rs[1..];
    forall r <- cs ensures !r.Restarts() && Settled(g, r) {
      assert r == Continuing(rs[0]) || r in rs[1..];
    }
    EmitsAll(g, cs, compare);
  }

  lemma BegunPattern(h: Handle, r: Request, compare: Compare)
    requires h.Valid()
    ensures Begun(h, r, compare).filter == FirstPattern(h, r)
  {
    hide SnapshotOf;
  }

  /** In mid-scan a query emits exactly if the real scan ended with `STATUS_NO_MORE_FILES` or
      `STATUS_NO_SUCH_FILE`, the layout is known, the directory is a real one (or its path is not
      known), something is left and its record fits. */
  lemma MidScanEmits(h: Handle, q: Query, compare: Compare)
    requires h.Valid() && h.started && !q.restart
    ensures Splice(h, q, compare).1 != []
            <==> && q.status in {0x8000_0006, 0xC000_000F}
                 && TryGetDirInfoLayout(q.infoClass).Some? && (q.dir.named ==> q.dir.isDirectory)
                 && h.Left(compare) != []
                 && TryGetDirInfoLayout(q.infoClass).value.nameOff + 2 * |h.Left(compare)[0]| <= q.length
  {
    hide Take, Matching, TryGetDirInfoLayout;
    if TryGetDirInfoLayout(q.infoClass).Some? && q.status in {0x8000_0006, 0xC000_000F} && (q.dir.named ==> q.dir.isDirectory) {
      SilentEnd(h, q, compare);
    }
  }

  /** The silent end: a query after exhaustion leaves the status as it is, so that the caller
      stops, exactly when nothing is left or the next record alone does not fit the buffer. In
      the second case a caller who goes on with a larger buffer sees the rest. */
  lemma SilentEnd(h: Handle, q: Query, compare: Compare)
    requires h.Valid() && h.started && q.status in {0x8000_0006, 0xC000_000F} && !q.restart && (q.dir.named ==> q.dir.isDirectory)
    requires TryGetDirInfoLayout(q.infoClass).Some?
    ensures Splice(h, q, compare).1 == []
            <==> h.Left(compare) == [] || RecordSize(TryGetDirInfoLayout(q.infoClass).value, h.Left(compare)[0]) > q.length
    ensures Splice(h, q, compare).1 == [] ==> Splice(h, q, compare).0.Left(compare) == h.Left(compare)
  {
    hide Take, Matching;
    TakeConserves(h.snapshot[h.cursor..], h.filter, compare, TryGetDirInfoLayout(q.infoClass).value, q.length, 0, q.single);
    SpliceConserves(h, q, compare);
  }
}
