/** The overlay as a one-layer file system: which calls behave like calls on the merged view,
    exactly, and what every run keeps. */
module OverlayRefinement {
  import opened Optional
  import opened Words
  import opened FileLayer
  import opened OverlayEngine
  import opened OverlayView
  import opened OverlayFrame

  /** One layer of files, and which of them this action wrote itself. */
  datatype View = View(files: Layer, own: set<Path>)

  function ViewOf(c: Config, s: Store): View {
    View(Files(c, s), Own(c, s))
  }

  /** Outcomes are the same up to which component was missing. */
  predicate Same(a: Outcome, b: Outcome) {
    a == b || (a.Absent() && b.Absent())
  }

  // ---- The one-layer file system ----

  /** Directories above a path of the overlay's cone are made on demand. */
  function Base(c: Config, v: View, p: Path): Layer {
    if c.policy(p).redirect then EnsureParents(v.files, p) else v.files
  }

  ghost predicate WriteAllowed(c: Config, v: View, p: Path, d: Disposition, edit: Content -> Content, o: Outcome, w: View) {
    if !c.policy(p).write then o == Denied && w == v
    else
      var (o', l) := OsWrite(Base(c, v, p), p, d, edit);
      Same(o, o') && w == View(l, if o'.Opened? && c.policy(p).redirect then v.own + {p} else v.own)
  }

  function ReadOutcome(c: Config, v: View, p: Path): Outcome {
    var o := OsOpen(v.files, p, OpenExisting, false).0;
    var allowed :=
      if o.OpenedDir? then true
      else if o.Absent() then c.policy(p).readIfAbsent
      else c.policy(p).read || p in v.own;
    if allowed then o else c.DeniedRead()
  }

  /** Visible real files cannot be removed. */
  ghost predicate DeleteAllowed(c: Config, locked: set<Path>, v: View, p: Path, o: Outcome, w: View) {
    if !c.policy(p).write || p in locked then o == Denied && w == v
    else
      var (o', l) := OsDelete(v.files, p);
      Same(o, o') && w == View(l, if o'.Done? then v.own - {p} else v.own)
  }

  /** A rename of nothing may or may not have made the directories above its destination. */
  ghost predicate RenameAllowed(c: Config, locked: set<Path>, v: View, p: Path, q: Path, replace: bool, o: Outcome, w: View) {
    if !c.policy(p).write || !c.policy(q).write || p in locked then o == Denied && w == v
    else if p !in v.files then o.Absent() && (w == v || w == View(Base(c, v, q), v.own))
    else
      var (o', l) := OsMove(Base(c, v, q), p, q, replace);
      Same(o, o')
      && w == View(l, if !o'.Done? then v.own
                      else if IsDir(v.files, p) then MovedOwn(v.own, p, q)
                      else v.own - {p} + (if c.policy(q).redirect then {q} else {}))
  }

  /** What is written below a directory goes with it. */
  function MovedOwn(own: set<Path>, p: Path, q: Path): set<Path> {
    (set r | r in own && !(p <= r)) + (set r | r in own && p <= r :: q + r[|p|..])
  }

  ghost predicate Allowed(c: Config, locked: set<Path>, v: View, call: Call, o: Outcome, w: View) {
    match call
    case Open(p, d, write, edit) =>
      if write then WriteAllowed(c, v, p, d, edit, o, w) else Same(o, ReadOutcome(c, v, p)) && w == v
    case Delete(p) => DeleteAllowed(c, locked, v, p, o, w)
    case Rename(p, q, replace) => RenameAllowed(c, locked, v, p, q, replace, o, w)
  }

  // ---- Where the engine departs from it ----

  /** Everything at and below `p` is in the overlay's cone. */
  ghost predicate InCone(c: Config, p: Path) {
    forall r {:trigger c.policy(r)} :: p <= r ==> c.policy(r).redirect
  }

  /** Reads open existing files, and what is renamed is a file, or a directory that only the
      overlay has and whose tree stays in the cone. */
  ghost predicate InScope(c: Config, s: Store, call: Call) {
    match call
    case Open(_, d, write, _) => write || d.OpenExisting?
    case Delete(_) => true
    case Rename(p, q, _) => IsDir(Files(c, s), p) ==> !IsDir(s.disk, p) && InCone(c, p) && InCone(c, q)
  }

  /** A real file at `p` that has not been captured. */
  predicate Uncaptured(s: Store, p: Path) {
    IsFile(s.disk, p) && p !in s.backing
  }

  /** A declared output in a directory that only the overlay has. */
  predicate Orphan(c: Config, s: Store, p: Path) {
    !HasParent(s.disk, p) && HasParent(Files(c, s), p)
  }

  ghost predicate WriteDiverges(c: Config, s: Store, p: Path, d: Disposition) {
    c.policy(p).write &&
    if c.policy(p).redirect then
      && !IsDir(s.disk, p) && !IsDir(s.backing, p)
      && (|| Covered(c, s, p)
          || (Uncaptured(s, p) && !c.Hidden(p) && d.TruncateExisting?)
          || (Uncaptured(s, p) && c.Hidden(p) && (d.OpenExisting? || (d.OpenAlways? && s.disk[p].content != []))))
    else d.Creates() && Orphan(c, s, p)
  }

  predicate DeleteDiverges(c: Config, s: Store, p: Path) {
    c.policy(p).write && c.policy(p).redirect && IsDir(s.disk, p) && c.Hidden(p) && p !in s.backing
  }

  ghost predicate RenameDiverges(c: Config, s: Store, p: Path, q: Path, replace: bool) {
    && c.policy(p).write && c.policy(q).write
    && (ResolveDelete(c, s, p).PassThrough? || ResolveDelete(c, s, p).RedirectToBacking?)
    && if c.policy(q).redirect then
         || Covered(c, s, q)
         || (p in Files(c, s) && q !in s.backing && (IsDir(s.disk, q) || (IsFile(s.disk, q) && !c.Hidden(q) && (!replace || IsDir(Files(c, s), p)))))
       else p in Files(c, s) && Orphan(c, s, q)
  }

  ghost predicate Diverges(c: Config, s: Store, call: Call) {
    match call
    case Open(p, d, write, _) => write && WriteDiverges(c, s, p, d)
    case Delete(p) => DeleteDiverges(c, s, p)
    case Rename(p, q, replace) => RenameDiverges(c, s, p, q, replace)
  }

  // ---- Writes ----

  lemma ParentSeen(c: Config, s: Store, p: Path)
    requires Coherent(c, s) && !c.policy(p).redirect
    ensures HasParent(s.disk, p) ==> HasParent(Files(c, s), p)
    ensures At(Files(c, s), p) == At(s.disk, p)
  {
    FilesAt(c, s, p);
    if p != [] { FilesAt(c, s, Parent(p)); }
  }

  lemma WriteRealRefines(c: Config, s: Store, p: Path, d: Disposition, edit: Content -> Content)
    requires Coherent(c, s) && !c.policy(p).redirect && c.policy(p).write
    ensures var (o, t) := DoOpen(c, s, p, d, true, edit);
            && (WriteAllowed(c, ViewOf(c, s), p, d, edit, o, ViewOf(c, t)) <==> !(d.Creates() && Orphan(c, s, p)))
            && Coherent(c, t)
  {
    hide Own, Files, Look;
    var (o, t) := DoOpen(c, s, p, d, true, edit);
    ParentSeen(c, s, p);
    if p in s.disk { assert HasParent(s.disk, p); }
    if o.Opened? {
      ViewPutReal(c, s, p, File(edit(o.initial)));
      assert t == s.(disk := s.disk[p := File(edit(o.initial))]);
      assert Files(c, s)[p := File([])][p := File(edit([]))] == Files(c, s)[p := File(edit([]))];
    } else {
      assert t == s;
    }
  }

  ghost predicate WritesThrough(c: Config, s: Store, p: Path, d: Disposition) {
    && Coherent(c, s) && c.policy(p).redirect && c.policy(p).write
    && !IsDir(s.disk, p) && !IsDir(s.backing, p) && !Covered(c, s, p)
    && !(d.CreateNew? && Uncaptured(s, p) && !c.Hidden(p))
  }

  lemma WriteBlockedRefines(c: Config, s: Store, p: Path, d: Disposition, edit: Content -> Content)
    requires WritesThrough(c, s, p, d) && Blocked(s.backing, p)
    ensures var (o, t) := DoOpen(c, s, p, d, true, edit);
            && WriteAllowed(c, ViewOf(c, s), p, d, edit, o, ViewOf(c, t)) && !WriteDiverges(c, s, p, d)
            && Coherent(c, t)
  {
    NotUnderBlock(c, s, p);
    ViewMade(c, s, p);
    EnsureParentsEffect(s.backing, p);
    FilesClosed(c, s);
    EnsureParentsEffect(Files(c, s), p);
    BlockedAlike(c, s, p);
  }

  /** What a redirected write does once the directories are there. */
  lemma WriteThroughEffect(c: Config, s: Store, p: Path, d: Disposition, edit: Content -> Content)
    requires WritesThrough(c, s, p, d) && !Blocked(s.backing, p)
    ensures var m := s.(backing := EnsureParents(s.backing, p));
            var (o, t) := DoOpen(c, s, p, d, true, edit);
            && o == (if p in s.backing then
                       if d.CreateNew? then Exists else if d.Keeps() then Opened(s.backing[p].content) else Opened([])
                     else if d.Keeps() && p in s.disk then Opened(s.disk[p].content)
                     else if d.Creates() then Opened([]) else NotFound)
            && t == if o.Opened? then m.(backing := m.backing[p := File(edit(o.initial))]) else m
  {
    EnsureParentsEffect(s.backing, p);
    assert At(EnsureParents(s.backing, p), p) == At(s.backing, p);
  }

  lemma WriteThroughRefines(c: Config, s: Store, p: Path, d: Disposition, edit: Content -> Content)
    requires WritesThrough(c, s, p, d) && !Blocked(s.backing, p)
    ensures var (o, t) := DoOpen(c, s, p, d, true, edit);
            && (WriteAllowed(c, ViewOf(c, s), p, d, edit, o, ViewOf(c, t)) <==> !WriteDiverges(c, s, p, d))
            && Coherent(c, t)
  {
    hide DoOpen, Own, Covered, Blocked, Files;
    var (o, t) := DoOpen(c, s, p, d, true, edit);
    var m := s.(backing := EnsureParents(s.backing, p));
    WriteThroughEffect(c, s, p, d, edit);
    ViewMade(c, s, p);
    EnsureParentsEffect(s.backing, p);
    FilesAt(c, s, p);
    FilesClosed(c, s);
    EnsureParentsEffect(Files(c, s), p);
    BlockedAlike(c, s, p);
    assert At(m.backing, p) == At(s.backing, p) && At(Files(c, m), p) == At(Files(c, s), p);
    if o.Opened? {
      ViewPut(c, m, p, File(edit(o.initial)));
      assert Files(c, m)[p := File([])][p := File(edit([]))] == Files(c, m)[p := File(edit([]))];
    }
  }

  lemma NotUnderBlock(c: Config, s: Store, p: Path)
    requires Coherent(c, s) && Blocked(s.backing, p)
    ensures p !in s.disk && p !in s.backing
  {
    var i :| 0 <= i <= |p| - 1 && IsFile(s.backing, p[..i]);
    if p in s.disk { ClosedAbove(s.disk, p, p[..i]); }
    if p in s.backing { ClosedAbove(s.backing, p, p[..i]); }
  }

  lemma WriteCoveredDiverges(c: Config, s: Store, p: Path, d: Disposition, edit: Content -> Content)
    requires Coherent(c, s) && c.policy(p).redirect && c.policy(p).write && Covered(c, s, p)
    ensures var (o, t) := DoOpen(c, s, p, d, true, edit);
            !WriteAllowed(c, ViewOf(c, s), p, d, edit, o, ViewOf(c, t))
    ensures !IsDir(s.disk, p) && !IsDir(s.backing, p)
  {
    var made := EnsureParents(s.backing, p);
    ViewCovered(c, s, p);
    EnsureParentsEffect(s.backing, p);
    FilesClosed(c, s);
    EnsureParentsEffect(Files(c, s), p);
    assert At(made, p) == At(s.backing, p);
  }

  lemma WriteRefines(c: Config, s: Store, p: Path, d: Disposition, edit: Content -> Content)
    requires Coherent(c, s)
    ensures var (o, t) := DoOpen(c, s, p, d, true, edit);
            && (WriteAllowed(c, ViewOf(c, s), p, d, edit, o, ViewOf(c, t)) <==> !WriteDiverges(c, s, p, d))
            && (!WriteDiverges(c, s, p, d) ==> Coherent(c, t))
  {
    if !c.policy(p).write {
    } else if !c.policy(p).redirect {
      WriteRealRefines(c, s, p, d, edit);
    } else if IsDir(s.disk, p) || IsDir(s.backing, p) || (d.CreateNew? && Uncaptured(s, p) && !c.Hidden(p)) {
      WriteExistingRefines(c, s, p, d, edit);
    } else if Covered(c, s, p) {
      WriteCoveredDiverges(c, s, p, d, edit);
    } else if Blocked(s.backing, p) {
      WriteBlockedRefines(c, s, p, d, edit);
    } else {
      WriteThroughRefines(c, s, p, d, edit);
    }
  }

  lemma WriteExistingRefines(c: Config, s: Store, p: Path, d: Disposition, edit: Content -> Content)
    requires Coherent(c, s) && c.policy(p).redirect && c.policy(p).write
    requires IsDir(s.disk, p) || IsDir(s.backing, p) || (d.CreateNew? && Uncaptured(s, p) && !c.Hidden(p))
    ensures var (o, t) := DoOpen(c, s, p, d, true, edit);
            && WriteAllowed(c, ViewOf(c, s), p, d, edit, o, ViewOf(c, t)) && t == s
    ensures !WriteDiverges(c, s, p, d)
  {
    FilesAt(c, s, p);
    FilesClosed(c, s);
    assert p in Files(c, s);
    assert HasParent(Files(c, s), p);
    NothingToMake(Files(c, s), p);
    if p in s.disk { assert HasParent(s.disk, p); }
    if p in s.backing { assert HasParent(s.backing, p); }
    if Covered(c, s, p) { ViewCovered(c, s, p); }
  }

  lemma NothingToMake(l: Layer, p: Path)
    requires Closed(l) && p in l
    ensures EnsureParents(l, p) == l && !Blocked(l, p)
  {
    if Blocked(l, p) {
      var i :| 0 <= i <= |p| - 1 && IsFile(l, p[..i]);
      ClosedAbove(l, p, p[..i]);
    }
    EnsureParentsEffect(l, p);
    forall q ensures At(EnsureParents(l, p), q) == At(l, q) {
      if q < p { ClosedAbove(l, p, q); }
    }
    SameLayer(EnsureParents(l, p), l);
  }

  // ---- Reads and deletes ----

  lemma ReadRefines(c: Config, s: Store, p: Path, edit: Content -> Content)
    requires Coherent(c, s)
    ensures var (o, t) := DoOpen(c, s, p, OpenExisting, false, edit);
            Same(o, ReadOutcome(c, ViewOf(c, s), p)) && t == s
  {
    FilesAt(c, s, p);
    FilesClosed(c, s);
    if p in Files(c, s) { assert HasParent(Files(c, s), p); }
    if p in s.disk { assert HasParent(s.disk, p); }
    if p in s.backing { assert HasParent(s.backing, p); }
  }

  lemma DeleteRefines(c: Config, s: Store, p: Path)
    requires Coherent(c, s)
    ensures var (o, t) := DoDelete(c, s, p);
            && (DeleteAllowed(c, Locked(c, s), ViewOf(c, s), p, o, ViewOf(c, t)) <==> !DeleteDiverges(c, s, p))
            && Coherent(c, t)
  {
    FilesAt(c, s, p);
    FilesClosed(c, s);
    if p in Files(c, s) { assert HasParent(Files(c, s), p); }
    if p in s.disk { assert HasParent(s.disk, p); }
    if p in s.backing { assert HasParent(s.backing, p); }
    var (o, t) := DoDelete(c, s, p);
    if o.Done? {
      if c.policy(p).redirect { ViewRemoved(c, s, p); } else { ViewRemovedReal(c, s, p); }
    }
  }

  // ---- Renames ----

  /** Both ends resolved, the move of a present file to a directory that is there. */
  lemma MovedView(c: Config, s: Store, p: Path, q: Path, t: Target, u: Target, e: Entry)
    requires Coherent(c, s) && e.File?
    requires t == (if c.policy(p).redirect then Backing else Real) && At(On(s, t), p) == Some(e)
    requires t.Backing? && p in s.disk ==> c.Hidden(p) && !IsDir(s.disk, p)
    requires u == (if c.policy(q).redirect then Backing else Real)
    requires HasParent(On(s, u), q) && !IsDir(s.disk, q) && !IsDir(On(s, u), q)
    ensures var s' := With(s, t, On(s, t) - {p});
            var s'' := With(s', u, On(s', u)[q := e]);
            && Files(c, s'') == (Files(c, s) - {p})[q := e] && Coherent(c, s'')
            && Own(c, s'') == Own(c, s) - {p} + (if c.policy(q).redirect then {q} else {})
  {
    var s' := With(s, t, On(s, t) - {p});
    if t.Backing? { ViewRemoved(c, s, p); } else { ViewRemovedReal(c, s, p); }
    assert HasParent(On(s', u), q);
    if u.Backing? { ViewPut(c, s', q, e); } else { ViewPutReal(c, s', q, e); }
  }

  ghost predicate Moves(c: Config, s: Store, p: Path, q: Path) {
    && Coherent(c, s) && c.policy(p).write && c.policy(q).write && !IsDir(Files(c, s), p)
    && (ResolveDelete(c, s, p).PassThrough? || ResolveDelete(c, s, p).RedirectToBacking?)
  }

  function Source(c: Config, s: Store, p: Path): Target {
    if ResolveDelete(c, s, p).PassThrough? then Real else Backing
  }

  /** The layer the source is taken from has it exactly when the view does. */
  lemma SourceSeen(c: Config, s: Store, p: Path, q: Path)
    requires Moves(c, s, p, q)
    ensures p in Files(c, s) <==> p in On(s, Source(c, s, p))
    ensures p in Files(c, s) ==>
              && IsFile(Files(c, s), p) && At(Files(c, s), p) == At(On(s, Source(c, s, p)), p)
              && HasParent(On(s, Source(c, s, p)), p) && HasParent(Files(c, s), p)
              && Source(c, s, p) == (if c.policy(p).redirect then Backing else Real)
              && (c.policy(p).redirect && p in s.disk ==> c.Hidden(p) && !IsDir(s.disk, p))
    ensures p !in Locked(c, s)
  {
    FilesAt(c, s, p);
    FilesClosed(c, s);
    if p in Files(c, s) { assert HasParent(Files(c, s), p); }
    if p in s.disk { assert HasParent(s.disk, p); }
    if p in s.backing { assert HasParent(s.backing, p); }
  }

  /** What a rename does once its ends are resolved and the directories are there. */
  lemma RenameEffect(c: Config, s: Store, p: Path, q: Path, replace: bool)
    requires Moves(c, s, p, q)
    ensures var m := s.(backing := if c.policy(q).redirect then EnsureParents(s.backing, q) else s.backing);
            var u := if c.policy(q).redirect then Backing else Real;
            var tgt := Source(c, s, p);
            DoRename(c, s, p, q, replace) == Move(m, tgt, p, u, q, replace)
  {}

  lemma RenameAbsent(c: Config, s: Store, p: Path, q: Path, replace: bool)
    requires Moves(c, s, p, q) && p !in Files(c, s) && (c.policy(q).redirect ==> !Covered(c, s, q))
    ensures var (o, t) := DoRename(c, s, p, q, replace);
            RenameAllowed(c, Locked(c, s), ViewOf(c, s), p, q, replace, o, ViewOf(c, t)) && Coherent(c, t)
  {
    hide DoRename, Files, Own, Locked, Coherent, Look;
    RenameEffect(c, s, p, q, replace);
    SourceSeen(c, s, p, q);
    if c.policy(q).redirect {
      var m := s.(backing := EnsureParents(s.backing, q));
      ViewMade(c, s, q);
      assert p !in On(m, Source(c, s, p)) by { NotMade(c, s, p, q); }
    }
  }

  /** Making directories does not make the (absent) source. */
  lemma NotMade(c: Config, s: Store, p: Path, q: Path)
    requires Moves(c, s, p, q) && p !in Files(c, s) && c.policy(q).redirect
    ensures Source(c, s, p) == Real && p !in s.disk
  {
    SourceSeen(c, s, p, q);
    FilesAt(c, s, p);
  }

  lemma RenameCovered(c: Config, s: Store, p: Path, q: Path, replace: bool)
    requires Moves(c, s, p, q) && c.policy(q).redirect && Covered(c, s, q)
    ensures var (o, t) := DoRename(c, s, p, q, replace);
            !RenameAllowed(c, Locked(c, s), ViewOf(c, s), p, q, replace, o, ViewOf(c, t))
  {
    hide Files, Look, Own;
    ViewCovered(c, s, q);
    SourceSeen(c, s, p, q);
    EnsureParentsEffect(s.backing, q);
    FilesClosed(c, s);
    EnsureParentsEffect(Files(c, s), q);
    var made := EnsureParents(s.backing, q);
    assert At(made, q) == At(s.backing, q);
    if p in Files(c, s) {
      assert At(made, p) == if p !in s.backing && p < q then Some(Dir) else At(s.backing, p);
      assert p in s.backing ==> HasParent(made, p) by {
        if p in s.backing && p != [] {
          assert At(made, Parent(p)) == At(s.backing, Parent(p));
        }
      }
    }
  }

  /** The source is there, and a backing file is in the way of the destination. */
  lemma RenameBlocked(c: Config, s: Store, p: Path, q: Path, replace: bool)
    requires Moves(c, s, p, q) && p in Files(c, s) && c.policy(q).redirect && !Covered(c, s, q) && Blocked(s.backing, q)
    ensures var (o, t) := DoRename(c, s, p, q, replace);
            && RenameAllowed(c, Locked(c, s), ViewOf(c, s), p, q, replace, o, ViewOf(c, t)) && Coherent(c, t)
    ensures !RenameDiverges(c, s, p, q, replace)
  {
    hide DoRename, Own, Covered;
    RenameEffect(c, s, p, q, replace);
    SourceSeen(c, s, p, q);
    FilesClosed(c, s);
    EnsureParentsEffect(s.backing, q);
    EnsureParentsEffect(Files(c, s), q);
    BlockedAlike(c, s, q);
    NotUnderBlock(c, s, q);
  }

  lemma DestSeen(c: Config, s: Store, q: Path)
    requires c.policy(q).redirect && Coherent(c, s)
    ensures IsDir(Files(c, s), q) <==> IsDir(s.disk, q) || IsDir(s.backing, q)
    ensures q in Files(c, s) <==> q in s.backing || IsDir(s.disk, q) || (IsFile(s.disk, q) && !c.Hidden(q))
    ensures q in s.backing && IsDir(s.disk, q) ==> IsDir(s.backing, q)
  {
    FilesAt(c, s, q);
  }

  /** The source is there and the destination goes to the backing store. */
  lemma RenameIntoOverlay(c: Config, s: Store, p: Path, q: Path, replace: bool)
    requires Moves(c, s, p, q) && p in Files(c, s) && c.policy(q).redirect && !Covered(c, s, q) && !Blocked(s.backing, q)
    ensures var (o, t) := DoRename(c, s, p, q, replace);
            && (RenameAllowed(c, Locked(c, s), ViewOf(c, s), p, q, replace, o, ViewOf(c, t)) <==> !RenameDiverges(c, s, p, q, replace))
            && (!RenameDiverges(c, s, p, q, replace) ==> Coherent(c, t))
  {
    hide DoRename, Own, Covered, Blocked, Files, Look;
    RenameEffect(c, s, p, q, replace);
    SourceSeen(c, s, p, q);
    ViewMade(c, s, q);
    FilesClosed(c, s);
    EnsureParentsEffect(s.backing, q);
    EnsureParentsEffect(Files(c, s), q);
    BlockedAlike(c, s, q);
    var m := s.(backing := EnsureParents(s.backing, q));
    DestSeen(c, s, q);
    MadeKeeps(s.backing, q, p);
    MadeKeeps(Files(c, s), q, p);
    assert At(m.backing, q) == At(s.backing, q) && At(Files(c, m), q) == At(Files(c, s), q);
    if !IsDir(s.disk, q) && !IsDir(s.backing, q) {
      MovedView(c, m, p, q, Source(c, s, p), Backing, Files(c, s)[p]);
    }
  }

  lemma MadeKeeps(l: Layer, q: Path, p: Path)
    requires Closed(l)
    ensures p in l ==> At(EnsureParents(l, q), p) == At(l, p) && HasParent(EnsureParents(l, q), p)
  {
    EnsureParentsEffect(l, q);
    if p in l {
      assert HasParent(l, p);
      if p != [] && !Blocked(l, q) {
        assert At(EnsureParents(l, q), Parent(p)) == At(l, Parent(p));
        assert At(EnsureParents(l, q), p) == At(l, p);
      }
    }
  }

  /** The source is there and the destination is a declared output. */
  lemma RenameOut(c: Config, s: Store, p: Path, q: Path, replace: bool)
    requires Moves(c, s, p, q) && p in Files(c, s) && !c.policy(q).redirect
    ensures var (o, t) := DoRename(c, s, p, q, replace);
            && (RenameAllowed(c, Locked(c, s), ViewOf(c, s), p, q, replace, o, ViewOf(c, t)) <==> !RenameDiverges(c, s, p, q, replace))
            && Coherent(c, t)
  {
    hide DoRename, Own, Files, Look;
    RenameEffect(c, s, p, q, replace);
    SourceSeen(c, s, p, q);
    ParentSeen(c, s, q);
    if q in s.disk { assert HasParent(s.disk, q); }
    if HasParent(s.disk, q) && !IsDir(s.disk, q) {
      MovedView(c, s, p, q, Source(c, s, p), Real, Files(c, s)[p]);
    }
  }

  lemma RenameRefused(c: Config, s: Store, p: Path, q: Path, replace: bool)
    requires Coherent(c, s) && !IsDir(Files(c, s), p) && !Moves(c, s, p, q)
    ensures var (o, t) := DoRename(c, s, p, q, replace);
            RenameAllowed(c, Locked(c, s), ViewOf(c, s), p, q, replace, o, ViewOf(c, t)) && t == s
    ensures !RenameDiverges(c, s, p, q, replace)
  {
    FilesAt(c, s, p);
  }

  // ---- Renames of directories ----

  /** A directory that only the overlay has, and nothing is on the real disk below it or where
      it goes. */
  ghost predicate MovesTree(c: Config, s: Store, p: Path, q: Path) {
    && Coherent(c, s) && c.policy(p).write && c.policy(q).write && InCone(c, p) && InCone(c, q)
    && IsDir(s.backing, p) && !IsDir(s.disk, p) && (p in s.disk ==> c.Hidden(p))
  }

  lemma NoneBelow(l: Layer, p: Path, r: Path)
    requires Closed(l) && !IsDir(l, p) && p <= r && p != r
    ensures r !in l
  {
    if r in l { ClosedAbove(l, r, p); }
  }

  /** A tree moved in the backing store is moved in the view. */
  lemma ViewMoved(c: Config, s: Store, p: Path, q: Path)
    requires MovesTree(c, s, p, q) && q !in s.backing && HasParent(s.backing, q) && !(p <= q)
    requires q in s.disk ==> IsFile(s.disk, q) && c.Hidden(q)
    ensures var t := s.(backing := Without(s.backing, p) + Shifted(s.backing, p, q));
            && Files(c, t) == Without(Files(c, s), p) + Shifted(Files(c, s), p, q)
            && Own(c, t) == MovedOwn(Own(c, s), p, q) && Coherent(c, t)
  {
    hide Files, Own, Without, Shifted;
    var t := s.(backing := Without(s.backing, p) + Shifted(s.backing, p, q));
    MovedAt(s.backing, p, q);
    ViewMovedAt(c, s, p, q);
    SameFiles(c, t, Without(Files(c, s), p) + Shifted(Files(c, s), p, q));
    MovedOwnIs(c, s, p, q);
    forall r | IsFile(t.backing, r) ensures !IsDir(s.disk, r) {
      assert At(t.backing, r) == if q <= r then At(s.backing, p + r[|q|..]) else if p <= r then None else At(s.backing, r);
      if q <= r && q != r { NoneBelow(s.disk, q, r); }
    }
  }

  lemma MovedAt(l: Layer, p: Path, q: Path)
    requires Closed(l) && p in l && HasParent(l, q) && q !in l && p != [] && !(p <= q)
    ensures var m := Without(l, p) + Shifted(l, p, q);
            && Closed(m)
            && forall r {:trigger At(m, r)} :: At(m, r) == if q <= r then At(l, p + r[|q|..]) else if p <= r then None else At(l, r)
  {
    hide Without, Shifted;
    var w := Without(l, p);
    WithoutClosed(l, p);
    assert At(w, q) == At(l, q);
    assert At(w, Parent(q)) == At(l, Parent(q)) by { assert !(p <= Parent(q)); }
    GraftClosed(w, l, p, q);
    var m := w + Shifted(l, p, q);
    forall r ensures At(m, r) == if q <= r then At(l, p + r[|q|..]) else if p <= r then None else At(l, r) {
      assert At(w, r) == if p <= r then None else At(l, r);
    }
  }

  /** The destination is free in the view as well. */
  lemma DestFree(c: Config, s: Store, p: Path, q: Path)
    requires MovesTree(c, s, p, q) && q !in s.backing && HasParent(s.backing, q) && q != []
    requires q in s.disk ==> IsFile(s.disk, q) && c.Hidden(q)
    ensures Closed(Files(c, s)) && p in Files(c, s) && p != [] && HasParent(Files(c, s), q) && q !in Files(c, s)
  {
    assert c.policy(p).redirect && c.policy(q).redirect;
    assert Parent(q) < q;
    FilesClosed(c, s);
    FilesAt(c, s, p);
    FilesAt(c, s, q);
    FilesAt(c, s, Parent(q));
  }

  /** Below the root of a tree that is only the overlay's the view is the backing store. */
  lemma LooksBacking(c: Config, s: Store, p: Path, r: Path)
    requires Closed(s.disk) && InCone(c, p) && !IsDir(s.disk, p) && (p in s.disk ==> c.Hidden(p)) && p <= r
    ensures Look(c, s, r) == At(s.backing, r)
  {
    assert c.policy(r).redirect;
    if p != r { NoneBelow(s.disk, p, r); }
  }

  lemma ViewMovedAt(c: Config, s: Store, p: Path, q: Path)
    requires MovesTree(c, s, p, q) && q !in s.backing && HasParent(s.backing, q) && !(p <= q)
    requires q in s.disk ==> IsFile(s.disk, q) && c.Hidden(q)
    ensures var t := s.(backing := Without(s.backing, p) + Shifted(s.backing, p, q));
            forall r :: Look(c, t, r) == At(Without(Files(c, s), p) + Shifted(Files(c, s), p, q), r)
  {
    hide Files, Without, Shifted, InCone;
    var t := s.(backing := Without(s.backing, p) + Shifted(s.backing, p, q));
    MovedAt(s.backing, p, q);
    assert q != [];
    DestFree(c, s, p, q);
    MovedAt(Files(c, s), p, q);
    var m := Without(Files(c, s), p) + Shifted(Files(c, s), p, q);
    forall r ensures Look(c, t, r) == At(m, r) {
      var x := if q <= r then p + r[|q|..] else r;
      assert At(t.backing, r) == if q <= r then At(s.backing, x) else if p <= r then None else At(s.backing, r);
      assert At(m, r) == if q <= r then At(Files(c, s), x) else if p <= r then None else At(Files(c, s), r);
      FilesAt(c, s, x);
      if q <= r {
        LooksBacking(c, t, q, r);
        LooksBacking(c, s, p, x);
      } else if p <= r {
        LooksBacking(c, t, p, r);
      }
    }
  }

  lemma MovedOwnHas(own: set<Path>, p: Path, q: Path, r: Path)
    ensures r in MovedOwn(own, p, q) <==> (r in own && !(p <= r)) || (q <= r && p + r[|q|..] in own)
  {
    if q <= r && p + r[|q|..] in own {
      var x := p + r[|q|..];
      assert x[|p|..] == r[|q|..] && q + x[|p|..] == r;
    }
    forall x | x in own && p <= x && q + x[|p|..] == r ensures q <= r && p + r[|q|..] == x {
      assert r[|q|..] == x[|p|..];
    }
  }

  lemma OwnHas(c: Config, s: Store, r: Path)
    ensures r in Own(c, s) <==> c.policy(r).redirect && At(s.backing, r).Some? && At(s.backing, r).value.File?
  {}

  lemma MovedOwnIs(c: Config, s: Store, p: Path, q: Path)
    requires MovesTree(c, s, p, q) && q !in s.backing && HasParent(s.backing, q) && !(p <= q)
    ensures Own(c, s.(backing := Without(s.backing, p) + Shifted(s.backing, p, q))) == MovedOwn(Own(c, s), p, q)
  {
    hide Without, Shifted, Own, MovedOwn;
    var t := s.(backing := Without(s.backing, p) + Shifted(s.backing, p, q));
    MovedAt(s.backing, p, q);
    forall r ensures r in Own(c, t) <==> r in MovedOwn(Own(c, s), p, q) {
      var x := if q <= r then p + r[|q|..] else r;
      assert At(t.backing, r) == if q <= r then At(s.backing, x) else if p <= r then None else At(s.backing, r);
      MovedOwnHas(Own(c, s), p, q, r);
      OwnHas(c, t, r);
      OwnHas(c, s, r);
      OwnHas(c, s, x);
      if q <= r {
        assert c.policy(r).redirect && p <= x && c.policy(x).redirect;
        if r in s.backing && q != r { ClosedAbove(s.backing, r, q); }
      }
    }
  }

  lemma MovedOntoItself(own: set<Path>, p: Path)
    ensures MovedOwn(own, p, p) == own
  {
    hide MovedOwn;
    forall r ensures r in MovedOwn(own, p, p) <==> r in own {
      MovedOwnHas(own, p, p, r);
      if p <= r { assert p + r[|p|..] == r; }
    }
  }

  /** Both ends of such a rename go to the backing store. */
  lemma TreeEffect(c: Config, s: Store, p: Path, q: Path, replace: bool)
    requires MovesTree(c, s, p, q)
    ensures var (o, l) := OsMove(EnsureParents(s.backing, q), p, q, replace);
            DoRename(c, s, p, q, replace) == (o, s.(backing := l))
    ensures p !in Locked(c, s) && IsDir(Files(c, s), p) && p != []
  {
    hide OsMove, EnsureParents;
    assert c.policy(p).redirect && c.policy(q).redirect;
    FilesAt(c, s, p);
  }

  /** How the move ends in a layer that has the source. */
  lemma TreeOutcome(l: Layer, p: Path, q: Path, replace: bool)
    requires Closed(l) && IsDir(l, p) && (p == q ==> q in l)
    ensures OsMove(l, p, q, replace)
            == if !HasParent(l, q) then (PathNotFound, l)
               else if p == q then (Done, l)
               else if p < q then (Denied, l)
               else if q !in l then (Done, Without(l, p) + Shifted(l, p, q))
               else if replace then (Denied, l) else (Exists, l)
  {
    hide Without, Shifted;
    assert HasParent(l, p);
  }

  lemma TreeMade(c: Config, s: Store, p: Path, q: Path)
    requires MovesTree(c, s, p, q) && !Covered(c, s, q)
    ensures var m := s.(backing := EnsureParents(s.backing, q));
            && MovesTree(c, m, p, q) && IsDir(Files(c, m), p)
            && Files(c, m) == EnsureParents(Files(c, s), q) && Own(c, m) == Own(c, s)
            && At(m.backing, q) == At(s.backing, q) && At(Files(c, m), q) == At(Files(c, s), q)
            && (HasParent(Files(c, m), q) <==> HasParent(m.backing, q))
            && (!HasParent(m.backing, q) ==> q !in s.disk && q !in s.backing)
  {
    hide Own, Covered, Files, Look;
    assert c.policy(p).redirect && c.policy(q).redirect;
    ViewMade(c, s, q);
    FilesClosed(c, s);
    EnsureParentsEffect(s.backing, q);
    EnsureParentsEffect(Files(c, s), q);
    BlockedAlike(c, s, q);
    MadeKeeps(s.backing, q, p);
    if Blocked(s.backing, q) { NotUnderBlock(c, s, q); }
    var m := s.(backing := EnsureParents(s.backing, q));
    FilesAt(c, m, p);
    LooksDir(c, m, p);
  }

  lemma LooksDir(c: Config, s: Store, p: Path)
    requires c.policy(p).redirect && IsDir(s.backing, p)
    ensures Look(c, s, p) == Some(Dir)
  {}

  /** The rename of such a tree, once it is neither refused nor covered. */
  lemma TreeIntoOverlay(c: Config, s: Store, p: Path, q: Path, replace: bool)
    requires MovesTree(c, s, p, q) && !Covered(c, s, q)
    ensures var (o, t) := DoRename(c, s, p, q, replace);
            && (RenameAllowed(c, Locked(c, s), ViewOf(c, s), p, q, replace, o, ViewOf(c, t)) <==> !RenameDiverges(c, s, p, q, replace))
            && (!RenameDiverges(c, s, p, q, replace) ==> Coherent(c, t))
  {
    hide DoRename, Own, Covered, Files, Look, Without, Shifted, MovedOwn, EnsureParents, OsMove, Closed;
    var m := s.(backing := EnsureParents(s.backing, q));
    assert c.policy(p).redirect && c.policy(q).redirect;
    TreeEffect(c, s, p, q, replace);
    TreeMade(c, s, p, q);
    FilesClosed(c, m);
    DestSeen(c, s, q);
    TreeOutcome(m.backing, p, q, replace);
    TreeOutcome(Files(c, m), p, q, replace);
    MovedOntoItself(Own(c, s), p);
    if p < q { NoneBelow(s.disk, p, q); }
    if HasParent(m.backing, q) && q !in s.backing && q !in Files(c, s) && !(p <= q) {
      ViewMoved(c, m, p, q);
    }
  }

  lemma TreeCovered(c: Config, s: Store, p: Path, q: Path, replace: bool)
    requires MovesTree(c, s, p, q) && Covered(c, s, q)
    ensures var (o, t) := DoRename(c, s, p, q, replace);
            !RenameAllowed(c, Locked(c, s), ViewOf(c, s), p, q, replace, o, ViewOf(c, t)) && RenameDiverges(c, s, p, q, replace)
  {
    hide DoRename, Own, Covered, Files, Look, Without, Shifted, MovedOwn, EnsureParents, OsMove, Closed;
    var m := s.(backing := EnsureParents(s.backing, q));
    assert c.policy(p).redirect && c.policy(q).redirect;
    TreeEffect(c, s, p, q, replace);
    ViewCovered(c, s, q);
    FilesClosed(c, s);
    EnsureParentsEffect(s.backing, q);
    EnsureParentsEffect(Files(c, s), q);
    MadeKeeps(s.backing, q, p);
    assert At(m.backing, q) == At(s.backing, q);
    TreeOutcome(m.backing, p, q, replace);
    TreeOutcome(Files(c, s), p, q, replace);
  }

  lemma TreeRefines(c: Config, s: Store, p: Path, q: Path, replace: bool)
    requires Coherent(c, s) && InScope(c, s, Rename(p, q, replace)) && IsDir(Files(c, s), p)
    ensures var (o, t) := DoRename(c, s, p, q, replace);
            && (RenameAllowed(c, Locked(c, s), ViewOf(c, s), p, q, replace, o, ViewOf(c, t)) <==> !RenameDiverges(c, s, p, q, replace))
            && (!RenameDiverges(c, s, p, q, replace) ==> Coherent(c, t))
  {
    hide ViewOf, Coherent;
    assert c.policy(p).redirect;
    FilesAt(c, s, p);
    if MovesTree(c, s, p, q) {
      if Covered(c, s, q) { TreeCovered(c, s, p, q, replace); } else { TreeIntoOverlay(c, s, p, q, replace); }
    }
  }

  lemma RenameRefines(c: Config, s: Store, p: Path, q: Path, replace: bool)
    requires Coherent(c, s) && !IsDir(Files(c, s), p)
    ensures var (o, t) := DoRename(c, s, p, q, replace);
            && (RenameAllowed(c, Locked(c, s), ViewOf(c, s), p, q, replace, o, ViewOf(c, t)) <==> !RenameDiverges(c, s, p, q, replace))
            && (!RenameDiverges(c, s, p, q, replace) ==> Coherent(c, t))
  {
    hide ViewOf;
    if !Moves(c, s, p, q) {
      RenameRefused(c, s, p, q, replace);
    } else if c.policy(q).redirect && Covered(c, s, q) {
      RenameCovered(c, s, p, q, replace);
    } else if p !in Files(c, s) {
      RenameAbsent(c, s, p, q, replace);
    } else if c.policy(q).redirect && Blocked(s.backing, q) {
      RenameBlocked(c, s, p, q, replace);
    } else if c.policy(q).redirect {
      RenameIntoOverlay(c, s, p, q, replace);
    } else {
      RenameOut(c, s, p, q, replace);
    }
  }

  // ---- Whole runs ----

  /** From any coherent state a call behaves as on the merged view, outcome and next view,
      exactly when the engine does not diverge there. */
  lemma StepRefines(c: Config, s: Store, call: Call)
    requires Coherent(c, s) && InScope(c, s, call)
    ensures var (o, t) := Step(c, s, call);
            && (Allowed(c, Locked(c, s), ViewOf(c, s), call, o, ViewOf(c, t)) <==> !Diverges(c, s, call))
            && (!Diverges(c, s, call) ==> Coherent(c, t) && Locked(c, t) == Locked(c, s))
  {
    hide DoOpen, DoDelete, DoRename, WriteAllowed, DeleteAllowed, RenameAllowed, Files, Own, WriteDiverges, DeleteDiverges, RenameDiverges, Coherent;
    var t := Step(c, s, call).1;
    match call
    case Open(p, d, write, edit) =>
      if write { WriteRefines(c, s, p, d, edit); } else { ReadRefines(c, s, p, edit); }
      LockedKept(c, s, call);
    case Delete(p) => DeleteRefines(c, s, p); LockedKept(c, s, call);
    case Rename(p, q, replace) =>
      if IsDir(Files(c, s), p) { TreeRefines(c, s, p, q, replace); } else { RenameRefines(c, s, p, q, replace); }
      LockedKept(c, s, call);
  }

  lemma LockedKept(c: Config, s: Store, call: Call)
    requires Coherent(c, s) && InScope(c, s, call)
    ensures Locked(c, Step(c, s, call).1) == Locked(c, s)
  {
    hide Step, ReadIntentChanges, DirectoryMoveChanges, Files;
    var t := Step(c, s, call).1;
    if call.Rename? { FilesAt(c, s, call.path); }
    forall p | c.policy(p).redirect ensures At(t.disk, p) == At(s.disk, p) {
      TameChangesNothing(c, s, call, p);
      RealLayerStep(c, s, call, p);
    }
    forall p ensures p in Locked(c, t) <==> p in Locked(c, s) {
      if c.policy(p).redirect { assert At(t.disk, p) == At(s.disk, p); }
    }
  }

  /** Every call of the run is in scope and does not diverge where it is made. */
  ghost predicate WellBehaved(c: Config, s: Store, calls: seq<Call>) {
    forall i :: 0 <= i < |calls| ==>
      InScope(c, Run(c, s, calls[..i]), calls[i]) && !Diverges(c, Run(c, s, calls[..i]), calls[i])
  }

  /** A run refines a run of the one-layer file system, call by call, with the locked files
      fixed from the start. */
  lemma {:induction false} RunRefines(c: Config, s: Store, calls: seq<Call>)
    requires Coherent(c, s) && WellBehaved(c, s, calls)
    ensures Coherent(c, Run(c, s, calls)) && Locked(c, Run(c, s, calls)) == Locked(c, s)
    ensures forall i :: 0 <= i < |calls| ==>
              Allowed(c, Locked(c, s), ViewOf(c, Run(c, s, calls[..i])), calls[i],
                      Step(c, Run(c, s, calls[..i]), calls[i]).0, ViewOf(c, Run(c, s, calls[..i + 1])))
  {
    hide Step, Coherent, Allowed, InScope, Diverges, ViewOf, Locked;
    if calls != [] {
      var n := |calls| - 1;
      var front := calls[..n];
      forall i | 0 <= i <= n ensures front[..i] == calls[..i] {}
      assert WellBehaved(c, s, front) by {
        forall i | 0 <= i < |front|
          ensures InScope(c, Run(c, s, front[..i]), front[i]) && !Diverges(c, Run(c, s, front[..i]), front[i]) {
          assert front[i] == calls[i] && front[..i] == calls[..i];
        }
      }
      RunRefines(c, s, front);
      assert calls[..n] == front;
      StepRefines(c, Run(c, s, front), calls[n]);
      forall i | 0 <= i < |calls|
        ensures Allowed(c, Locked(c, s), ViewOf(c, Run(c, s, calls[..i])), calls[i],
                        Step(c, Run(c, s, calls[..i]), calls[i]).0, ViewOf(c, Run(c, s, calls[..i + 1]))) {
        if i < n {
          assert front[..i] == calls[..i] && front[i] == calls[i] && front[..i + 1] == calls[..i + 1];
        } else {
          assert calls[..i + 1] == calls;
        }
      }
    }
  }

  /** A fresh overlay over a well-formed disk is coherent. */
  lemma FreshCoherent(c: Config, disk: Layer)
    requires Closed(disk) && forall p, q :: q < p && c.policy(p).redirect && !c.policy(q).redirect ==> IsDir(disk, q)
    ensures Coherent(c, Store(disk, map[[] := Dir]))
  {}

  // ---- Removals ----

  /** A successful delete of a path in the cone leaves nothing there: not the backing copy,
      and not a hidden real file under it. */
  lemma DeleteHides(c: Config, s: Store, p: Path)
    requires Coherent(c, s) && c.policy(p).redirect && DoDelete(c, s, p).0.Done?
    ensures var t := DoDelete(c, s, p).1;
            p !in Files(c, t) && t.disk == s.disk && p in Files(c, s)
  {
    FilesAt(c, s, p);
    FilesAt(c, DoDelete(c, s, p).1, p);
  }

  /** Nor does a successful rename of a file to somewhere else. */
  lemma RenameAwayHides(c: Config, s: Store, p: Path, q: Path, replace: bool)
    requires Coherent(c, s) && c.policy(p).redirect && !IsDir(Files(c, s), p) && p != q
    requires DoRename(c, s, p, q, replace).0.Done?
    ensures var t := DoRename(c, s, p, q, replace).1;
            p !in Files(c, t) && p in Files(c, s) && At(t.disk, p) == At(s.disk, p)
  {
    hide EnsureParents, Coherent;
    SourceSeen(c, s, p, q);
    FilesAt(c, s, p);
    var t := DoRename(c, s, p, q, replace).1;
    FilesAt(c, t, p);
    RenameEffect(c, s, p, q, replace);
    if p in s.backing { EnsuringKeeps(s.backing, q, p); }
  }

  /** What a delete in the cone comes to, in terms of the view: it succeeds for exactly the files
      this action wrote over nothing visible; it finds nothing exactly where the view has nothing,
      hidden real files included, and at hidden real directories; it is denied otherwise. Unless
      it succeeds neither layer changes. */
  lemma DeleteOutcomes(c: Config, s: Store, p: Path)
    requires Coherent(c, s) && c.policy(p).redirect && c.policy(p).write
    ensures var (o, t) := DoDelete(c, s, p);
            && (o.Done? <==> p in Own(c, s) && p !in Locked(c, s))
            && (o.Absent() <==> p !in Files(c, s) || DeleteDiverges(c, s, p))
            && (o.Done? || o.Absent() || o.Denied?)
            && (o.Done? ==> t == s.(backing := s.backing - {p})) && (!o.Done? ==> t == s)
  {
    FilesAt(c, s, p);
    if p in s.disk { assert HasParent(s.disk, p); }
    if p in s.backing { assert HasParent(s.backing, p); }
  }

  // ---- Metadata and opens ----

  /** A metadata query: the probed path's entry, as an open would report it. */
  function Stat(c: Config, s: Store, p: Path): Outcome {
    CheckRead(c, s, p, OsOpen(On(s, ResolveProbe(c, s, p)), p, OpenExisting, false).0)
  }

  function OpenToRead(c: Config, s: Store, p: Path): Outcome {
    DoOpen(c, s, p, OpenExisting, false, x => x).0
  }

  /** Metadata and read opens always agree on whether a path exists, and on what is there
      exactly unless a real directory shadows a backing file. */
  lemma StatAgrees(c: Config, s: Store, p: Path)
    requires Closed(s.disk) && Closed(s.backing)
    ensures Stat(c, s, p).Absent() <==> OpenToRead(c, s, p).Absent()
    ensures Same(Stat(c, s, p), OpenToRead(c, s, p)) <==> !(c.policy(p).redirect && IsDir(s.disk, p) && IsFile(s.backing, p))
  {
    if p in s.disk { assert HasParent(s.disk, p); }
    if p in s.backing { assert HasParent(s.backing, p); }
  }

  /** For a missing leaf of the cone the open says which component is missing as the merged
      view would, exactly unless a hidden real file lies under the overlay's directory; where
      probing what is absent is denied it says no more than that. */
  lemma LeafNotFound(c: Config, s: Store, p: Path)
    requires Coherent(c, s) && c.policy(p).redirect && p != []
    requires p !in s.disk && p !in s.backing
    ensures c.policy(p).readIfAbsent ==>
              (OpenToRead(c, s, p) == (if HasParent(Files(c, s), p) then NotFound else PathNotFound)
               <==> !(IsFile(s.disk, Parent(p)) && IsDir(s.backing, Parent(p)) && c.policy(Parent(p)).redirect))
    ensures !c.policy(p).readIfAbsent ==> OpenToRead(c, s, p) == if c.filter then NotFound else Denied
  {
    var d := Parent(p);
    assert d < p;
    FilesAt(c, s, d);
  }
}
