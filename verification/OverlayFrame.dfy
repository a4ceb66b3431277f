/** What a call can change in the two layers, and what no run changes. */
module OverlayFrame {
  import opened Optional
  import opened Words
  import opened FileLayer
  import opened OverlayEngine
  import opened OverlayView

  lemma EnsuresOnlyAbove(l: Layer, p: Path, q: Path)
    requires !(q <= p)
    ensures At(EnsureParents(l, p), q) == At(l, q)
  {
    if p != [] { MakesOnlyAbove(l, p, |p| - 1, q); }
  }

  /** An open changes entries at and above its path only. */
  lemma OpenTouchesOnly(c: Config, s: Store, p: Path, d: Disposition, write: bool, edit: Content -> Content, r: Path)
    requires !(r <= p)
    ensures var t := DoOpen(c, s, p, d, write, edit).1;
            At(t.disk, r) == At(s.disk, r) && At(t.backing, r) == At(s.backing, r)
  {
    hide EnsureParents, HasParent, IsDir, IsFile, CheckRead;
    EnsuresOnlyAbove(s.backing, p, r);
  }

  /** The entry is as it was, or was taken from under `p`. */
  ghost predicate KeptOrTaken(l: Layer, m: Layer, p: Path, r: Path) {
    At(m, r) == At(l, r) || (p <= r && At(m, r) == None)
  }

  lemma MoveOnlyTakes(l: Layer, p: Path, q: Path, replace: bool, r: Path)
    requires !(q <= r) || (q != r && !IsDir(l, p))
    ensures KeptOrTaken(l, OsMove(l, p, q, replace).1, p, r)
  {
    hide HasParent, OsMoveTo, OsMoveDirTo;
    assert At(Without(l, p), r) == if p <= r then None else At(l, r);
    assert !(q <= r) ==> At(Shifted(l, p, q), r) == None;
  }

  lemma AcrossOnlyTakes(s: Store, t: Target, p: Path, u: Target, q: Path, replace: bool, r: Path)
    requires !(q <= r) || (q != r && !IsDir(On(s, t), p))
    ensures var v := Move(s, t, p, u, q, replace).1;
            KeptOrTaken(s.disk, v.disk, p, r) && KeptOrTaken(s.backing, v.backing, p, r)
  {
    hide HasParent, OsMoveTo, OsMoveDirTo, OsMove;
    MoveOnlyTakes(On(s, t), p, q, replace, r);
    assert At(Without(On(s, t), p), r) == if p <= r then None else At(On(s, t), r);
    assert !(q <= r) ==> At(Shifted(On(s, t), p, q), r) == None;
  }

  lemma {:induction false} MakingKeeps(l: Layer, p: Path, k: nat, q: Path)
    requires k <= |p| && q in l
    ensures At(MakeDirs(l, p, k), q) == At(l, q)
  {
    if k > 0 { MakingKeeps(l, p, k - 1, q); }
  }

  /** No directory is at `p`, so a rename of it takes nothing else along. */
  predicate Single(s: Store, p: Path) {
    !IsDir(s.disk, p) && !IsDir(s.backing, p)
  }

  /** Away from its destination a rename only takes, at and below its source. */
  lemma RenameOnlyTakes(c: Config, s: Store, p: Path, q: Path, replace: bool, r: Path)
    requires !(r <= q) && (!(q <= r) || Single(s, p))
    ensures var t := DoRename(c, s, p, q, replace).1;
            KeptOrTaken(s.disk, t.disk, p, r) && KeptOrTaken(s.backing, t.backing, p, r)
  {
    hide EnsureParents, OsMove, Move, TreeWritable;
    EnsuresOnlyAbove(s.backing, q, r);
    if !(q <= r) { MoveOnlyTakes(s.disk, p, q, replace, r); }
    var (u, made) := ResolveRenameDest(c, s, q);
    var m := s.(backing := made);
    if !IsDir(s.disk, p) {
      if ResolveDelete(c, s, p).PassThrough? {
        AcrossOnlyTakes(m, Real, p, u, q, replace, r);
      } else if ResolveDelete(c, s, p).RedirectToBacking? {
        assert At(made, p) == At(s.backing, p) by { EnsuringKeeps(s.backing, q, p); }
        AcrossOnlyTakes(m, Backing, p, u, q, replace, r);
      }
    }
  }

  lemma EnsuringKeeps(l: Layer, p: Path, q: Path)
    requires q in l
    ensures At(EnsureParents(l, p), q) == At(l, q)
  {
    if p != [] { MakingKeeps(l, p, |p| - 1, q); }
  }

  // ---- The real layer ----

  /** A read-intent open that nevertheless creates or truncates: it is not redirected. With
      TRUNCATE_EXISTING this takes the native API, since CreateFileW asks for write access. */
  ghost predicate ReadIntentChanges(c: Config, s: Store, call: Call, r: Path) {
    && call.Open? && !call.write && call.path == r
    && r !in s.backing && HasParent(s.disk, r)
    && (|| (r !in s.disk && call.disposition.Creates())
        || (IsFile(s.disk, r) && s.disk[r] != File([]) && (call.disposition.CreateAlways? || call.disposition.TruncateExisting?)))
  }

  /** Nothing is in the way at `q`. */
  ghost predicate Clear(l: Layer, q: Path) {
    HasParent(l, q) && q !in l
  }

  /** A directory that is moved on the real disk takes `r` along or sets it down; or one of the
      overlay is moved out onto the real disk and sets it down. */
  ghost predicate DirectoryMoveChanges(c: Config, s: Store, call: Call, r: Path) {
    && call.Rename? && c.policy(call.path).write && c.policy(call.dest).write && Clear(s.disk, call.dest)
    && if IsDir(s.disk, call.path) then
         && TreeWritable(c, s.disk, call.path, call.dest) && !(call.path <= call.dest)
         && ((call.path <= r && r in s.disk) || (call.dest <= r && call.path + r[|call.dest|..] in s.disk))
       else
         && c.policy(call.path).redirect && !c.policy(call.dest).redirect && IsDir(s.backing, call.path)
         && (call.path in s.disk ==> c.Hidden(call.path)) && HasParent(s.backing, call.path)
         && call.dest <= r && call.path + r[|call.dest|..] in s.backing
  }

  lemma RealDirectoryMoved(l: Layer, p: Path, q: Path, replace: bool, r: Path)
    requires Closed(l) && IsDir(l, p)
    ensures At(OsMove(l, p, q, replace).1, r) == At(l, r)
            <==> !(Clear(l, q) && !(p <= q) && ((p <= r && r in l) || (q <= r && p + r[|q|..] in l)))
  {
    assert HasParent(l, p);
    if Clear(l, q) && !(p <= q) {
      var m := Without(l, p);
      assert p != [];
      WithoutClosed(l, p);
      assert At(m, q) == At(l, q);
      assert q != [];
      assert At(m, Parent(q)) == At(l, Parent(q));
      GraftClosed(m, l, p, q);
      assert At(m + Shifted(l, p, q), r) == if q <= r then At(l, p + r[|q|..]) else At(m, r);
      assert At(m, r) == if p <= r then None else At(l, r);
      if q <= r && r in l { ClosedAbove(l, r, q); }
    }
  }

  lemma OverlaySourceMoved(c: Config, s: Store, p: Path, q: Path, replace: bool, r: Path)
    requires c.policy(r).redirect && Closed(s.disk) && !IsDir(s.disk, p) && c.policy(p).write && c.policy(q).write
    ensures At(DoRename(c, s, p, q, replace).1.disk, r) == At(s.disk, r) <==> !DirectoryMoveChanges(c, s, Rename(p, q, replace), r)
  {
    hide EnsureParents, Shifted, Without;
    if IsDir(s.backing, p) && Clear(s.disk, q) && !c.policy(q).redirect {
      var sh := Shifted(s.backing, p, q);
      assert At(sh, r) == if q <= r then At(s.backing, p + r[|q|..]) else None;
      assert At(s.disk + sh, r) == if r in sh then At(sh, r) else At(s.disk, r);
      if q <= r && q != r && r in s.disk { ClosedAbove(s.disk, r, q); }
    }
  }

  /** The real file at a path with the override bit survives every call unchanged, except
      exactly a read-intent open with a creating or truncating disposition and the move of a
      directory. */
  lemma RealLayerStep(c: Config, s: Store, call: Call, r: Path)
    requires c.policy(r).redirect && Closed(s.disk)
    ensures At(Step(c, s, call).1.disk, r) == At(s.disk, r)
            <==> !ReadIntentChanges(c, s, call, r) && !DirectoryMoveChanges(c, s, call, r)
  {
    if call.Rename? {
      hide DoRename;
      RenameReal(c, s, call.path, call.dest, call.replace, r);
    } else {
      hide DoRename, DirectoryMoveChanges;
      assert !DirectoryMoveChanges(c, s, call, r) by { OnlyRenames(c, s, call, r); }
    }
  }

  lemma OnlyRenames(c: Config, s: Store, call: Call, r: Path)
    ensures DirectoryMoveChanges(c, s, call, r) ==> call.Rename?
  {}

  lemma RenameReal(c: Config, s: Store, p: Path, q: Path, replace: bool, r: Path)
    requires c.policy(r).redirect && Closed(s.disk)
    ensures At(DoRename(c, s, p, q, replace).1.disk, r) == At(s.disk, r) <==> !DirectoryMoveChanges(c, s, Rename(p, q, replace), r)
  {
    if c.policy(p).write && c.policy(q).write {
      if IsDir(s.disk, p) {
        hide OsMove, TreeWritable;
        RealDirectoryMoved(s.disk, p, q, replace, r);
      } else {
        OverlaySourceMoved(c, s, p, q, replace, r);
      }
    }
  }

  // ---- What guards the move of a directory ----

  /** Something below `p` may not be removed from where it is, or not be made below `q`. */
  ghost predicate TreeForbidden(c: Config, l: Layer, p: Path, q: Path) {
    exists r <- l :: p < r && (!c.policy(r).write
                               || (l[r].Dir? && !c.policy(q + r[|p|..]).createDirectory)
                               || (l[r].File? && !c.policy(q + r[|p|..]).write))
  }

  /** The move of a real directory is denied exactly if either end or anything below it is
      forbidden, or the operating system denies it: into itself, or over something it may
      replace. */
  lemma DirectoryMoveDenied(c: Config, s: Store, p: Path, q: Path, replace: bool)
    requires IsDir(s.disk, p) && Closed(s.disk)
    ensures DoRename(c, s, p, q, replace).0.Denied?
            <==> || !c.policy(p).write || !c.policy(q).write || TreeForbidden(c, s.disk, p, q)
                 || (HasParent(s.disk, q) && p != q && (p < q || (q in s.disk && replace)))
  {
    hide Without, Shifted;
    assert HasParent(s.disk, p);
    assert TreeWritable(c, s.disk, p, q) <==> !TreeForbidden(c, s.disk, p, q);
  }

  /** Whatever the move of a real directory makes appear may be made where it appears, and what
      it takes away may be removed: directories by the right to create directories, files by
      the right to write, at each path of its own. */
  lemma DirectoryMoveGuarded(c: Config, s: Store, p: Path, q: Path, replace: bool, r: Path)
    requires IsDir(s.disk, p) && Closed(s.disk)
    ensures var t := DoRename(c, s, p, q, replace).1;
            && (r !in s.disk && r in t.disk && r != q ==>
                  if t.disk[r].Dir? then c.policy(r).createDirectory else c.policy(r).write)
            && (r in s.disk && r !in t.disk ==> c.policy(r).write)
            && (t.disk != s.disk ==> c.policy(p).write && c.policy(q).write)
            && t.backing == s.backing
  {
    hide Without, Shifted;
    var t := DoRename(c, s, p, q, replace).1;
    assert At(Without(s.disk, p), r) == if p <= r then None else At(s.disk, r);
    assert At(Shifted(s.disk, p, q), r) == if q <= r then At(s.disk, p + r[|q|..]) else None;
    if q <= r && r != q && TreeWritable(c, s.disk, p, q) {
      var x := p + r[|q|..];
      assert p < x && q + x[|p|..] == r;
    }
    if p <= r && r != p { assert p < r; }
  }

  // ---- The layers stay trees ----

  ghost predicate Trees(s: Store) {
    Closed(s.disk) && Closed(s.backing)
  }

  lemma OpenClosed(l: Layer, p: Path, d: Disposition, write: bool, edit: Content -> Content)
    requires Closed(l)
    ensures Closed(OsOpen(l, p, d, write).1) && Closed(OsWrite(l, p, d, edit).1)
  {
    if HasParent(l, p) && !IsDir(l, p) {
      PutClosed(l, p, File([]));
      var (o, m) := OsOpen(l, p, d, true);
      assert HasParent(m, p);
      if o.Opened? { PutClosed(m, p, File(edit(o.initial))); }
    }
  }

  lemma MoveClosed(l: Layer, p: Path, q: Path, replace: bool)
    requires Closed(l)
    ensures Closed(OsMove(l, p, q, replace).1)
  {
    var (o, m) := OsMove(l, p, q, replace);
    if HasParent(l, p) && p in l && o.Done? {
      if l[p].File? {
        RemoveClosed(l, p);
        assert HasParent(l - {p}, q);
        PutClosed(l - {p}, q, l[p]);
      } else if p != q {
        WithoutClosed(l, p);
        assert q != [];
        assert At(Without(l, p), Parent(q)) == At(l, Parent(q)) && At(Without(l, p), q) == At(l, q);
        GraftClosed(Without(l, p), l, p, q);
      }
    }
  }

  lemma AcrossClosed(s: Store, t: Target, p: Path, u: Target, q: Path, replace: bool)
    requires Trees(s) && p != []
    ensures Trees(Move(s, t, p, u, q, replace).1)
  {
    hide OsMove;
    var l, m := On(s, t), On(s, u);
    MoveClosed(l, p, q, replace);
    if t != u && HasParent(l, p) && p in l && Move(s, t, p, u, q, replace).0.Done? {
      if l[p].File? {
        RemoveClosed(l, p);
        PutClosed(m, q, l[p]);
      } else {
        WithoutClosed(l, p);
        GraftClosed(m, l, p, q);
      }
    }
  }

  lemma MadeClosed(c: Config, s: Store, p: Path, d: Disposition, write: bool)
    requires Trees(s)
    ensures Closed(ResolveOpen(c, s, p, d, write).1) && Closed(EnsureParents(s.backing, p))
  {
    hide EnsureParents;
    EnsureParentsEffect(s.backing, p);
    var made := EnsureParents(s.backing, p);
    if p in s.disk && HasParent(made, p) && p !in made && !IsDir(s.disk, p) {
      PutClosed(made, p, s.disk[p]);
    }
  }

  lemma DeleteClosed(l: Layer, p: Path)
    requires Closed(l)
    ensures Closed(OsDelete(l, p).1)
  {
    if IsFile(l, p) { RemoveClosed(l, p); }
  }

  /** Whatever the calls, both layers stay trees. */
  lemma StepTrees(c: Config, s: Store, call: Call)
    requires Trees(s)
    ensures Trees(Step(c, s, call).1)
  {
    hide Closed, OsOpen, OsWrite, OsMove, OsDelete, ResolveOpen, ResolveDelete, EnsureParents, CheckRead, Move, TreeWritable;
    match call {
      case Open(p, d, write, edit) =>
        MadeClosed(c, s, p, d, write);
        var made := ResolveOpen(c, s, p, d, write).1;
        OpenClosed(s.disk, p, d, write, edit);
        OpenClosed(made, p, d, write, edit);
      case Delete(p) =>
        DeleteClosed(s.disk, p);
        DeleteClosed(s.backing, p);
      case Rename(p, q, replace) =>
        MadeClosed(c, s, q, CreateNew, true);
        MoveClosed(s.disk, p, q, replace);
        RootIsDir(s.disk);
        if p != [] {
          var (u, made) := ResolveRenameDest(c, s, q);
          AcrossClosed(s.(backing := made), Real, p, u, q, replace);
          AcrossClosed(s.(backing := made), Backing, p, u, q, replace);
        }
    }
  }

  lemma RootIsDir(l: Layer)
    requires Closed(l)
    ensures IsDir(l, [])
  {}

  // ---- No real file changes ----

  /** Reads open existing files, and no real directory is moved. */
  ghost predicate Tame(s: Store, call: Call) {
    match call
    case Open(_, d, write, _) => write || d.OpenExisting?
    case Delete(_) => true
    case Rename(p, _, _) => !IsDir(s.disk, p)
  }

  lemma DirsKept(c: Config, s: Store, call: Call, r: Path)
    requires Tame(s, call) && IsDir(s.disk, r) && Closed(s.disk)
    ensures IsDir(Step(c, s, call).1.disk, r)
  {
    hide EnsureParents, CopyUp, CheckRead, Without;
    if call.Rename? {
      RenameKeepsDirs(c, s, call.path, call.dest, call.replace, r);
    }
  }

  lemma RenameKeepsDirs(c: Config, s: Store, p: Path, q: Path, replace: bool, r: Path)
    requires !IsDir(s.disk, p) && IsDir(s.disk, r) && Closed(s.disk)
    ensures IsDir(DoRename(c, s, p, q, replace).1.disk, r)
  {
    hide EnsureParents, Without, Shifted, ResolveDelete;
    assert At(Shifted(s.backing, p, q), r) == if q <= r then At(s.backing, p + r[|q|..]) else None;
    if q <= r && q != r { ClosedAbove(s.disk, r, q); }
  }

  ghost predicate TameRun(c: Config, s: Store, calls: seq<Call>) {
    forall i :: 0 <= i < |calls| ==> Tame(Run(c, s, calls[..i]), calls[i])
  }

  /** Over whole runs of write opens, plain reads, deletes and renames, in any mix of
      redirected and declared-output paths, no real file in the overlay's cone changes, as
      long as no real directory is renamed. */
  lemma {:induction false} RealLayerImmutable(c: Config, s: Store, calls: seq<Call>, r: Path)
    requires Trees(s) && ConeAnchored(c, s.disk) && c.policy(r).redirect && TameRun(c, s, calls)
    ensures At(Run(c, s, calls).disk, r) == At(s.disk, r)
    ensures Trees(Run(c, s, calls)) && ConeAnchored(c, Run(c, s, calls).disk)
  {
    hide Step, Tame, Closed;
    if calls != [] {
      var n := |calls| - 1;
      var front := calls[..n];
      forall i | 0 <= i < n ensures front[..i] == calls[..i] && front[i] == calls[i] {}
      RealLayerImmutable(c, s, front, r);
      var t := Run(c, s, front);
      StepTrees(c, t, calls[n]);
      RealLayerStep(c, t, calls[n], r);
      TameChangesNothing(c, t, calls[n], r);
      forall q | IsDir(t.disk, q) ensures IsDir(Run(c, s, calls).disk, q) {
        DirsKept(c, t, calls[n], q);
      }
    }
  }

  lemma TameChangesNothing(c: Config, s: Store, call: Call, r: Path)
    requires Tame(s, call) && ConeAnchored(c, s.disk) && c.policy(r).redirect
    ensures !ReadIntentChanges(c, s, call, r) && !DirectoryMoveChanges(c, s, call, r)
  {
    if call.Rename? && call.dest <= r && !c.policy(call.dest).redirect {
      assert |call.dest| == |r| ==> call.dest == r;
    }
  }

  // ---- Nothing comes back ----

  /** Where a call may make something appear: at and above the path it writes, and below the
      path that a directory is moved to. */
  ghost predicate MayAppear(s: Store, call: Call, r: Path) {
    match call
    case Open(p, _, _, _) => r <= p
    case Delete(_) => false
    case Rename(p, q, _) => r <= q || (q <= r && !Single(s, p))
  }

  lemma LessLook(c: Config, s: Store, t: Store, p: Path, r: Path)
    requires KeptOrTaken(s.disk, t.disk, p, r) && KeptOrTaken(s.backing, t.backing, p, r)
    ensures r !in Files(c, s) ==> r !in Files(c, t)
  {
    FilesAt(c, s, r);
    FilesAt(c, t, r);
  }

  lemma DeleteOnlyTakes(c: Config, s: Store, p: Path, r: Path)
    ensures var t := DoDelete(c, s, p).1;
            KeptOrTaken(s.disk, t.disk, p, r) && KeptOrTaken(s.backing, t.backing, p, r)
  {}

  /** A path absent from the view stays absent through any call that does not write at it or
      below it, or move a directory to it or above it. */
  lemma NothingAppears(c: Config, s: Store, call: Call, r: Path)
    requires r !in Files(c, s) && !MayAppear(s, call, r)
    ensures r !in Files(c, Step(c, s, call).1)
  {
    hide DoOpen, DoDelete, DoRename, Files;
    var t := Step(c, s, call).1;
    match call {
      case Open(p, d, write, edit) => OpenTouchesOnly(c, s, p, d, write, edit, r); LessLook(c, s, t, p, r);
      case Delete(p) => DeleteOnlyTakes(c, s, p, r); LessLook(c, s, t, p, r);
      case Rename(p, q, replace) => RenameOnlyTakes(c, s, p, q, replace, r); LessLook(c, s, t, p, r);
    }
  }

  /** So a removed path is never resurrected: it stays absent over every run until something
      is written at it or below it or a directory is moved to it or above it. */
  lemma {:induction false} NeverResurrected(c: Config, s: Store, calls: seq<Call>, r: Path)
    requires r !in Files(c, s) && forall i :: 0 <= i < |calls| ==> !MayAppear(Run(c, s, calls[..i]), calls[i], r)
    ensures r !in Files(c, Run(c, s, calls))
  {
    hide Files, Step;
    if calls != [] {
      var n := |calls| - 1;
      forall i | 0 <= i < n ensures calls[..n][..i] == calls[..i] && calls[..n][i] == calls[i] {}
      NeverResurrected(c, s, calls[..n], r);
      NothingAppears(c, Run(c, s, calls[..n]), calls[n], r);
    }
  }
}
