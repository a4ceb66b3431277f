/** The merged view: the single file system that the two layers stand for, and how changes to
    a layer show in it. */
module OverlayView {
  import opened Optional
  import opened Words
  import opened FileLayer
  import opened OverlayEngine

  /** What the view has at `p`: a directory of the real disk, else the backing entry, else the
      real file unless the filter hides it. */
  function Look(c: Config, s: Store, p: Path): Option<Entry> {
    if IsDir(s.disk, p) then Some(Dir)
    else if c.policy(p).redirect && p in s.backing then Some(s.backing[p])
    else if p in s.disk && !(c.policy(p).redirect && c.Hidden(p)) then Some(s.disk[p])
    else None
  }

  function Files(c: Config, s: Store): Layer {
    map p | p in s.disk.Keys + s.backing.Keys && Look(c, s, p).Some? :: Look(c, s, p).value
  }

  /** The files this action wrote into the overlay. */
  function Own(c: Config, s: Store): set<Path> {
    set p | p in s.backing && c.policy(p).redirect && s.backing[p].File?
  }

  /** The real files that are visible but must not be removed. */
  function Locked(c: Config, s: Store): set<Path> {
    set p | p in s.disk && c.policy(p).redirect && s.disk[p].File? && !c.Hidden(p)
  }

  /** The overlay's cone reaches up to real directories. */
  ghost predicate ConeAnchored(c: Config, disk: Layer) {
    forall p, q :: q < p && c.policy(p).redirect && !c.policy(q).redirect ==> IsDir(disk, q)
  }

  /** Both layers are trees, no file of the backing store lies under a real directory, and
      the overlay's cone reaches up to real directories. */
  ghost predicate Coherent(c: Config, s: Store) {
    && Closed(s.disk) && Closed(s.backing)
    && (forall p :: IsFile(s.backing, p) ==> !IsDir(s.disk, p))
    && ConeAnchored(c, s.disk)
  }

  /** A visible real file, not captured yet, is a component above `p`. */
  ghost predicate Covered(c: Config, s: Store, p: Path) {
    exists i :: 0 <= i < |p| && IsFile(s.disk, p[..i]) && p[..i] !in s.backing && !c.Hidden(p[..i])
  }

  lemma FilesAt(c: Config, s: Store, p: Path)
    ensures At(Files(c, s), p) == Look(c, s, p)
  {}

  lemma SameFiles(c: Config, s: Store, l: Layer)
    requires forall p :: Look(c, s, p) == At(l, p)
    ensures Files(c, s) == l
  {
    forall p ensures At(Files(c, s), p) == At(l, p) {
      FilesAt(c, s, p);
    }
    SameLayer(Files(c, s), l);
  }

  lemma FilesClosed(c: Config, s: Store)
    requires Coherent(c, s)
    ensures Closed(Files(c, s))
  {
    forall p {:trigger Parent(p)} | p in Files(c, s) ensures HasParent(Files(c, s), p) {
      FilesAt(c, s, p);
      if p != [] {
        var q := Parent(p);
        assert q < p && HasParent(s.disk, p) == IsDir(s.disk, q) && HasParent(s.backing, p) == IsDir(s.backing, q);
        FilesAt(c, s, q);
      }
    }
    FilesAt(c, s, []);
  }

  /** A file above `p` stops `mkdir -p` in the view exactly when it stops it in the store. */
  lemma BlockedAlike(c: Config, s: Store, p: Path)
    requires Coherent(c, s) && c.policy(p).redirect && !Covered(c, s, p)
    ensures Blocked(Files(c, s), p) <==> Blocked(s.backing, p)
  {
    forall i | 0 <= i < |p| ensures IsFile(Files(c, s), p[..i]) <==> IsFile(s.backing, p[..i]) {
      FilesAt(c, s, p[..i]);
      assert p[..i] < p;
    }
  }

  /** Making the backing directories above `p` is `mkdir -p` in the view. */
  lemma ViewMade(c: Config, s: Store, p: Path)
    requires Coherent(c, s) && c.policy(p).redirect && !Covered(c, s, p)
    ensures var t := s.(backing := EnsureParents(s.backing, p));
            && Files(c, t) == EnsureParents(Files(c, s), p)
            && Own(c, t) == Own(c, s) && Coherent(c, t)
  {
    var made := EnsureParents(s.backing, p);
    var t := s.(backing := made);
    FilesClosed(c, s);
    EnsureParentsEffect(s.backing, p);
    EnsureParentsEffect(Files(c, s), p);
    BlockedAlike(c, s, p);
    if !Blocked(s.backing, p) {
      forall q ensures Look(c, t, q) == At(EnsureParents(Files(c, s), p), q) {
        FilesAt(c, s, q);
        assert At(made, q) == if q !in s.backing && q < p then Some(Dir) else At(s.backing, q);
        if q < p { assert q == p[..|q|]; }
      }
      SameFiles(c, t, EnsureParents(Files(c, s), p));
      forall q ensures IsFile(made, q) <==> IsFile(s.backing, q) {
        assert At(made, q) == if q !in s.backing && q < p then Some(Dir) else At(s.backing, q);
      }
      assert Own(c, t) == Own(c, s) by {
        forall q ensures q in Own(c, t) <==> q in Own(c, s) {
          assert IsFile(made, q) <==> IsFile(s.backing, q);
          assert At(made, q) == if q !in s.backing && q < p then Some(Dir) else At(s.backing, q);
        }
      }
    }
  }

  /** When a visible real file is above `p`, making the directories hides it. */
  lemma ViewCovered(c: Config, s: Store, p: Path)
    requires Coherent(c, s) && c.policy(p).redirect && Covered(c, s, p)
    ensures p !in Files(c, s) && Blocked(Files(c, s), p) && EnsureParents(Files(c, s), p) == Files(c, s)
    ensures Files(c, s.(backing := EnsureParents(s.backing, p))) != Files(c, s)
    ensures p !in s.disk && p !in s.backing && !Blocked(s.backing, p)
  {
    var i :| 0 <= i < |p| && IsFile(s.disk, p[..i]) && p[..i] !in s.backing && !c.Hidden(p[..i]);
    var q := p[..i];
    assert q < p;
    FilesClosed(c, s);
    FilesAt(c, s, q);
    EnsureParentsEffect(Files(c, s), p);
    if p in s.disk { ClosedAbove(s.disk, p, q); }
    if p in s.backing { ClosedAbove(s.backing, p, q); }
    if p in Files(c, s) { ClosedAbove(Files(c, s), p, q); }
    if Blocked(s.backing, p) {
      var j :| 0 <= j <= |p| - 1 && IsFile(s.backing, p[..j]);
      if j < i {
        assert p[..j] <= q;
        ClosedAbove(s.disk, q, p[..j]);
      } else {
        assert q <= p[..j];
        ClosedAbove(s.backing, p[..j], q);
      }
    }
    EnsureParentsEffect(s.backing, p);
    var t := s.(backing := EnsureParents(s.backing, p));
    assert At(EnsureParents(s.backing, p), q) == Some(Dir);
    FilesAt(c, t, q);
  }

  /** A file put into the backing store shows in the view. */
  lemma ViewPut(c: Config, s: Store, p: Path, e: Entry)
    requires Coherent(c, s) && c.policy(p).redirect && e.File?
    requires !IsDir(s.disk, p) && !IsDir(s.backing, p) && HasParent(s.backing, p)
    ensures var t := s.(backing := s.backing[p := e]);
            && Files(c, t) == Files(c, s)[p := e] && Own(c, t) == Own(c, s) + {p} && Coherent(c, t)
  {
    var t := s.(backing := s.backing[p := e]);
    forall q ensures Look(c, t, q) == At(Files(c, s)[p := e], q) {
      FilesAt(c, s, q);
    }
    SameFiles(c, t, Files(c, s)[p := e]);
    PutClosed(s.backing, p, e);
  }

  lemma PutClosed(l: Layer, p: Path, e: Entry)
    requires Closed(l) && HasParent(l, p) && !IsDir(l, p)
    ensures Closed(l[p := e])
  {
    forall q {:trigger Parent(q)} | q in l[p := e] ensures HasParent(l[p := e], q) {
      if q != p { assert HasParent(l, q); }
      assert HasParent(l, p);
    }
  }

  lemma RemoveClosed(l: Layer, p: Path)
    requires Closed(l) && IsFile(l, p)
    ensures Closed(l - {p})
  {
    forall q {:trigger Parent(q)} | q in l - {p} ensures HasParent(l - {p}, q) {
      assert HasParent(l, q);
    }
  }

  /** Removing a backing file removes the path from the view: nothing is resurrected. */
  lemma ViewRemoved(c: Config, s: Store, p: Path)
    requires Coherent(c, s) && c.policy(p).redirect && IsFile(s.backing, p)
    requires p in s.disk ==> c.Hidden(p)
    ensures var t := s.(backing := s.backing - {p});
            && Files(c, t) == Files(c, s) - {p} && Own(c, t) == Own(c, s) - {p} && Coherent(c, t)
  {
    var t := s.(backing := s.backing - {p});
    forall q ensures Look(c, t, q) == At(Files(c, s) - {p}, q) {
      FilesAt(c, s, q);
    }
    SameFiles(c, t, Files(c, s) - {p});
    RemoveClosed(s.backing, p);
  }

  /** A file put on the real disk at a declared output shows in the view. */
  lemma ViewPutReal(c: Config, s: Store, p: Path, e: Entry)
    requires Coherent(c, s) && !c.policy(p).redirect && e.File?
    requires !IsDir(s.disk, p) && HasParent(s.disk, p)
    ensures var t := s.(disk := s.disk[p := e]);
            && Files(c, t) == Files(c, s)[p := e] && Own(c, t) == Own(c, s) && Coherent(c, t)
  {
    var t := s.(disk := s.disk[p := e]);
    forall q ensures Look(c, t, q) == At(Files(c, s)[p := e], q) {
      FilesAt(c, s, q);
    }
    SameFiles(c, t, Files(c, s)[p := e]);
    PutClosed(s.disk, p, e);
  }

  lemma ViewRemovedReal(c: Config, s: Store, p: Path)
    requires Coherent(c, s) && !c.policy(p).redirect && IsFile(s.disk, p)
    ensures var t := s.(disk := s.disk - {p});
            && Files(c, t) == Files(c, s) - {p} && Own(c, t) == Own(c, s) && Coherent(c, t)
  {
    var t := s.(disk := s.disk - {p});
    forall q ensures Look(c, t, q) == At(Files(c, s) - {p}, q) {
      FilesAt(c, s, q);
    }
    SameFiles(c, t, Files(c, s) - {p});
    RemoveClosed(s.disk, p);
  }
}
