/** What the calls on the overlay's cone come to, told from the merged view alone. */
module OverlayOutcomes {
  import opened Optional
  import opened Words
  import opened FileLayer
  import opened OverlayEngine
  import opened OverlayView
  import opened OverlayFrame
  import opened OverlayRefinement

  /** The entry at `r` once every missing directory above `p` has been made. */
  function Made(l: Layer, p: Path, r: Path): Option<Entry> {
    if r !in l && r < p then Some(Dir) else At(l, r)
  }

  lemma MadeIs(l: Layer, p: Path)
    requires Closed(l) && !Blocked(l, p)
    ensures Closed(EnsureParents(l, p)) && HasParent(EnsureParents(l, p), p)
    ensures forall r {:trigger At(EnsureParents(l, p), r)} :: At(EnsureParents(l, p), r) == Made(l, p, r)
  {
    EnsureParentsEffect(l, p);
    forall r ensures At(EnsureParents(l, p), r) == Made(l, p, r) {
      assert At(EnsureParents(l, p), r) == if r !in l && r < p then Some(Dir) else At(l, r);
    }
  }

  lemma PresentNotBlocked(l: Layer, p: Path)
    requires Closed(l) && p in l
    ensures !Blocked(l, p)
  {
    NothingToMake(l, p);
  }

  // ---- Writes ----

  /** What an edit starts from: the content there is, if the disposition keeps it. */
  function Initial(l: Layer, p: Path, d: Disposition): Content {
    if IsFile(l, p) && (d.OpenExisting? || d.OpenAlways?) then l[p].content else []
  }

  /** An open for writing, edited and closed, on a layer whose directories are there. */
  lemma WriteEffect(l: Layer, p: Path, d: Disposition, edit: Content -> Content)
    requires HasParent(l, p)
    ensures var (o, m) := OsWrite(l, p, d, edit);
            && (o.Exists? <==> p in l && d.CreateNew?)
            && (o.Denied? <==> IsDir(l, p) && !d.CreateNew?)
            && (o.Absent() <==> p !in l && (d.OpenExisting? || d.TruncateExisting?))
            && (o.Exists? || o.Denied? || o.Absent() || o == Opened(Initial(l, p, d)))
            && forall r {:trigger At(m, r)} :: At(m, r) == if o.Opened? && r == p then Some(File(edit(Initial(l, p, d)))) else At(l, r)
  {}

  /** A write in the cone, where it does not diverge: it fails with the path absent exactly if a
      file is above it or it is not there and not to be made; it finds it there, or is denied,
      exactly as CREATE_NEW and directories ask for; else it starts from the content the
      disposition keeps, makes what is missing above it, and changes nothing else. */
  lemma WriteOutcomes(c: Config, s: Store, p: Path, d: Disposition, edit: Content -> Content)
    requires Coherent(c, s) && c.policy(p).redirect && c.policy(p).write && !WriteDiverges(c, s, p, d)
    ensures var (o, t) := DoOpen(c, s, p, d, true, edit);
            var l := Files(c, s);
            && (o.Absent() <==> Blocked(l, p) || (p !in l && (d.OpenExisting? || d.TruncateExisting?)))
            && (o.Exists? <==> p in l && d.CreateNew?)
            && (o.Denied? <==> IsDir(l, p) && !d.CreateNew?)
            && (o.Absent() || o.Exists? || o.Denied? || o == Opened(Initial(l, p, d)))
            && (forall r :: At(Files(c, t), r) == if o.Opened? && r == p then Some(File(edit(Initial(l, p, d))))
                                                  else if Blocked(l, p) then At(l, r) else Made(l, p, r))
            && (o.Opened? ==> p in Own(c, t)) && Coherent(c, t)
  {
    hide DoOpen, Files, Own, Coherent, WriteDiverges, Blocked, OsWrite, EnsureParents;
    var l := Files(c, s);
    WriteRefines(c, s, p, d, edit);
    FilesClosed(c, s);
    EnsureParentsEffect(l, p);
    if p in l { PresentNotBlocked(l, p); }
    if Blocked(l, p) {
      NoDirectory(l, p, d, edit);
    } else {
      MadeIs(l, p);
      WriteEffect(EnsureParents(l, p), p, d, edit);
      assert At(EnsureParents(l, p), p) == Made(l, p, p);
    }
  }

  lemma NoDirectory(l: Layer, p: Path, d: Disposition, edit: Content -> Content)
    requires !HasParent(l, p)
    ensures OsWrite(l, p, d, edit) == (PathNotFound, l)
  {}

  /** What a process has written it reads back, whatever the input filter says of the path. */
  lemma ReadsItsWrites(c: Config, s: Store, p: Path, d: Disposition, edit: Content -> Content)
    requires Coherent(c, s) && c.policy(p).redirect && c.policy(p).write && !WriteDiverges(c, s, p, d)
    requires DoOpen(c, s, p, d, true, edit).0.Opened?
    ensures OpenToRead(c, DoOpen(c, s, p, d, true, edit).1, p) == Opened(edit(Initial(Files(c, s), p, d)))
  {
    hide DoOpen, Coherent, WriteDiverges, Initial, Files, Own;
    var t := DoOpen(c, s, p, d, true, edit).1;
    WriteOutcomes(c, s, p, d, edit);
    assert At(Files(c, t), p) == Some(File(edit(Initial(Files(c, s), p, d))));
    OwnReads(c, t, p);
  }

  lemma OwnReads(c: Config, s: Store, p: Path)
    requires Coherent(c, s) && p in Own(c, s)
    ensures IsFile(Files(c, s), p) && OpenToRead(c, s, p) == Opened(Files(c, s)[p].content)
  {
    FilesAt(c, s, p);
    assert HasParent(s.backing, p);
  }

  // ---- Renames ----

  /** Nothing is in the way of moving what is at `p` to `q`: a file goes over a file that it may
      replace, a directory over nothing and not into itself. */
  predicate MayMove(l: Layer, p: Path, q: Path, replace: bool) {
    p == q || (!(IsDir(l, p) && p < q) && (q !in l || (replace && IsFile(l, p) && IsFile(l, q))))
  }

  /** The entry at `r` once `p`, with all below it, has gone to `q`. */
  function MovedEntry(l: Layer, p: Path, q: Path, r: Path): Option<Entry> {
    if q <= r then At(l, p + r[|q|..]) else if p <= r then None else Made(l, q, r)
  }

  lemma MoveFile(l: Layer, p: Path, q: Path, replace: bool)
    requires Closed(l) && HasParent(l, q) && IsFile(l, p)
    ensures var (o, m) := OsMove(l, p, q, replace);
            && (o.Done? <==> MayMove(l, p, q, replace)) && (!o.Done? ==> m == l)
            && (o.Done? ==> forall r {:trigger At(m, r)} ::
                  At(m, r) == if q <= r then At(l, p + r[|q|..]) else if p <= r then None else At(l, r))
  {
    assert HasParent(l, p);
    var (o, m) := OsMove(l, p, q, replace);
    if o.Done? {
      forall r ensures At(m, r) == if q <= r then At(l, p + r[|q|..]) else if p <= r then None else At(l, r) {
        if q <= r { assert p == q ==> p + r[|q|..] == r; }
        if q == r { assert p + r[|q|..] == p; }
        if q <= r && r != q {
          NoneBelow(l, q, r);
          NoneBelow(l, p, p + r[|q|..]);
        }
        if p <= r && r != p { NoneBelow(l, p, r); }
      }
    }
  }

  lemma MoveTree(l: Layer, p: Path, q: Path, replace: bool)
    requires Closed(l) && HasParent(l, q) && IsDir(l, p) && p != []
    ensures var (o, m) := OsMove(l, p, q, replace);
            && (o.Done? <==> MayMove(l, p, q, replace)) && (!o.Done? ==> m == l)
            && (o.Done? ==> forall r {:trigger At(m, r)} ::
                  At(m, r) == if q <= r then At(l, p + r[|q|..]) else if p <= r then None else At(l, r))
  {
    hide Without, Shifted;
    var (o, m) := OsMove(l, p, q, replace);
    TreeOutcome(l, p, q, replace);
    if o.Done? && p != q {
      assert q != [];
      MovedAt(l, p, q);
    } else if o.Done? {
      forall r: Path | q <= r ensures p + r[|q|..] == r {}
    }
  }

  lemma MoveEffect(l: Layer, p: Path, q: Path, replace: bool)
    requires Closed(l) && p in l && HasParent(l, q) && p != []
    ensures var (o, m) := OsMove(l, p, q, replace);
            && (o.Done? <==> MayMove(l, p, q, replace)) && (!o.Done? ==> m == l)
            && (o.Done? ==> forall r {:trigger At(m, r)} ::
                  At(m, r) == if q <= r then At(l, p + r[|q|..]) else if p <= r then None else At(l, r))
  {
    hide OsMove;
    if IsDir(l, p) { MoveTree(l, p, q, replace); } else { MoveFile(l, p, q, replace); }
  }

  /** A rename within the cone, of a file or of a directory that only the overlay has, where it
      does not diverge: it succeeds exactly if the source is there and not a visible real file,
      no file is above the destination and nothing is in the way; then the source, with all below
      it, is where it went and nowhere else, what was missing above is made and all other entries
      are as they were. If it fails no entry moves. */
  lemma RenameOutcomes(c: Config, s: Store, p: Path, q: Path, replace: bool)
    requires Coherent(c, s) && InScope(c, s, Rename(p, q, replace)) && !RenameDiverges(c, s, p, q, replace)
    requires c.policy(p).redirect && c.policy(q).redirect && c.policy(p).write && c.policy(q).write && p != []
    ensures var (o, t) := DoRename(c, s, p, q, replace);
            var l := Files(c, s);
            && (o.Done? <==> p in l && p !in Locked(c, s) && !Blocked(l, q) && MayMove(l, p, q, replace))
            && (o.Done? ==> forall r :: At(Files(c, t), r) == MovedEntry(l, p, q, r))
            && (!o.Done? ==> forall r :: At(Files(c, t), r) in {At(l, r), Made(l, q, r)})
  {
    hide DoRename, Files, Own, Coherent, RenameDiverges, Blocked, OsMove, EnsureParents, Locked, MovedOwn, InCone, MayMove;
    var l := Files(c, s);
    if IsDir(l, p) { TreeRefines(c, s, p, q, replace); } else { RenameRefines(c, s, p, q, replace); }
    FilesClosed(c, s);
    EnsureParentsEffect(l, q);
    if p in l {
      if Blocked(l, q) {
        NoPlace(l, p, q, replace);
      } else {
        MadeIs(l, q);
        var m := EnsureParents(l, q);
        assert At(m, p) == Made(l, q, p) && At(m, q) == Made(l, q, q);
        MoveEffect(m, p, q, replace);
        SameWay(l, m, p, q, replace);
        if MayMove(l, p, q, replace) {
          forall r ensures MovedEntry(l, p, q, r) == if q <= r then At(m, p + r[|q|..]) else if p <= r then None else At(m, r) {
            MovedMade(l, m, p, q, replace, r);
          }
        }
      }
    } else if !Blocked(l, q) {
      MadeIs(l, q);
    }
  }

  lemma NoPlace(l: Layer, p: Path, q: Path, replace: bool)
    requires !HasParent(l, q) && Closed(l) && p in l
    ensures OsMove(l, p, q, replace) == (PathNotFound, l)
  {
    assert HasParent(l, p);
  }

  lemma SameWay(l: Layer, m: Layer, p: Path, q: Path, replace: bool)
    requires At(m, p) == At(l, p) && At(m, q) == At(l, q)
    ensures MayMove(m, p, q, replace) == MayMove(l, p, q, replace)
  {}

  lemma NotInto(l: Layer, p: Path, q: Path, replace: bool)
    requires p in l && !Blocked(l, q) && MayMove(l, p, q, replace)
    ensures !(p < q)
  {
    var cut := if |p| < |q| then q[..|p|] else [];
    assert p < q ==> p == cut;
  }

  /** The directories made above the destination are not below the source. */
  lemma MovedMade(l: Layer, m: Layer, p: Path, q: Path, replace: bool, r: Path)
    requires Closed(l) && p in l && !Blocked(l, q) && MayMove(l, p, q, replace)
    requires forall x {:trigger At(m, x)} :: At(m, x) == Made(l, q, x)
    ensures MovedEntry(l, p, q, r) == if q <= r then At(m, p + r[|q|..]) else if p <= r then None else At(m, r)
  {
    if q <= r {
      var x := p + r[|q|..];
      assert At(m, x) == Made(l, q, x);
      NotInto(l, p, q, replace);
      assert x < q ==> p < q;
    } else {
      assert At(m, r) == Made(l, q, r);
    }
  }

  // ---- Reads ----

  /** A real file that may not be read and has no backing copy: under the input filter it is
      reported as not there, else as denied. */
  lemma DeniedReads(c: Config, s: Store, p: Path)
    requires Coherent(c, s) && IsFile(s.disk, p) && !(c.policy(p).redirect && p in s.backing) && !c.policy(p).read
    ensures OpenToRead(c, s, p) == if c.filter then NotFound else Denied
  {
    assert HasParent(s.disk, p);
  }
}
