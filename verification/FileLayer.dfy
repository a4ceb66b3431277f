/** A plain file system: what the operating system does with one tree of files. */
module FileLayer {
  import opened Optional
  import opened Words

  /** A path below the source root, as its components; names stand for themselves up to case. */
  type Path = seq<Name>

  type Content = seq<int>

  datatype Entry = File(content: Content) | Dir

  type Layer = map<Path, Entry>

  datatype Disposition = CreateNew | CreateAlways | OpenExisting | OpenAlways | TruncateExisting
  {
    /** Makes the file if it is absent. */
    predicate Creates() {
      CreateNew? || CreateAlways? || OpenAlways?
    }

    /** Keeps the content the file has. */
    predicate Keeps() {
      OpenExisting? || OpenAlways?
    }
  }

  datatype Outcome = Opened(initial: Content) | OpenedDir | Done | NotFound | PathNotFound | Exists | Denied
  {
    predicate Absent() {
      NotFound? || PathNotFound?
    }
  }

  function Parent(p: Path): Path
    requires p != []
  {
    p[..|p| - 1]
  }

  predicate IsDir(l: Layer, p: Path) { p in l && l[p].Dir? }

  predicate IsFile(l: Layer, p: Path) { p in l && l[p].File? }

  /** The directory that `p` would be in is there. */
  predicate HasParent(l: Layer, p: Path) {
    p == [] || IsDir(l, Parent(p))
  }

  /** Everything lies in a directory. */
  ghost predicate Closed(l: Layer) {
    IsDir(l, []) && forall p {:trigger Parent(p)} {:trigger HasParent(l, p)} :: p in l ==> HasParent(l, p)
  }

  lemma {:induction false} ClosedAbove(l: Layer, p: Path, q: Path)
    requires Closed(l) && p in l && q <= p && q != p
    ensures IsDir(l, q)
    decreases |p|
  {
    assert HasParent(l, p);
    if q == Parent(p) {
    } else {
      assert q <= Parent(p);
      ClosedAbove(l, Parent(p), q);
    }
  }

  /** `CreateFileW` on one layer: the outcome, and the layer after it. */
  function OsOpen(l: Layer, p: Path, disposition: Disposition, write: bool): (Outcome, Layer) {
    if !HasParent(l, p) then (PathNotFound, l)
    else if IsDir(l, p) then
      if disposition.CreateNew? then (Exists, l)
      else if write || !disposition.Keeps() then (Denied, l)
      else (OpenedDir, l)
    else if p in l then
      if disposition.CreateNew? then (Exists, l)
      else if disposition.Keeps() then (Opened(l[p].content), l)
      else (Opened([]), l[p := File([])])
    else if disposition.Creates() then (Opened([]), l[p := File([])])
    else (NotFound, l)
  }

  /** Open for writing and edit what was opened. */
  function OsWrite(l: Layer, p: Path, disposition: Disposition, edit: Content -> Content): (Outcome, Layer) {
    var (o, m) := OsOpen(l, p, disposition, true);
    (o, if o.Opened? then m[p := File(edit(o.initial))] else m)
  }

  function OsDelete(l: Layer, p: Path): (Outcome, Layer) {
    if !HasParent(l, p) then (PathNotFound, l)
    else if p !in l then (NotFound, l)
    else if l[p].Dir? then (Denied, l)
    else (Done, l - {p})
  }

  /** How a move of a file from a path where `src` is, to `q` of layer `l`, ends. */
  function OsMoveTo(l: Layer, q: Path, replace: bool, ontoItself: bool): Outcome {
    if !HasParent(l, q) then PathNotFound
    else if ontoItself || q !in l then Done
    else if l[q].Dir? then Denied
    else if replace then Done
    else Exists
  }

  /** The same of a directory: nothing may be in its way, and it cannot go into itself. */
  function OsMoveDirTo(l: Layer, q: Path, replace: bool, ontoItself: bool, intoItself: bool): Outcome {
    if !HasParent(l, q) then PathNotFound
    else if ontoItself then Done
    else if intoItself then Denied
    else if q !in l then Done
    else if replace then Denied
    else Exists
  }

  /** What is left without the entries at and below `p`. */
  function Without(l: Layer, p: Path): (m: Layer)
    ensures forall r {:trigger At(m, r)} {:trigger At(l, r)} :: At(m, r) == if p <= r then None else At(l, r)
  {
    map r | r in l && !(p <= r) :: l[r]
  }

  /** The entries at and below `p`, as they lie at and below `q`. */
  function Shifted(l: Layer, p: Path, q: Path): (m: Layer)
    ensures forall r {:trigger At(m, r)} :: At(m, r) == if q <= r then At(l, p + r[|q|..]) else None
  {
    var keys := set r | r in l && p <= r :: q + r[|p|..];
    assert forall k :: k in keys <==> q <= k && p + k[|q|..] in l by {
      forall k ensures k in keys <==> q <= k && p + k[|q|..] in l {
        if q <= k && p + k[|q|..] in l {
          var r := p + k[|q|..];
          assert r[|p|..] == k[|q|..] && q + r[|p|..] == k;
        }
        if k in keys {
          var r :| r in l && p <= r && k == q + r[|p|..];
          assert k[|q|..] == r[|p|..] && p + k[|q|..] == r;
        }
      }
    }
    map k | k in keys :: l[p + k[|q|..]]
  }

  /** `MoveFileWithProgressW` within one layer: a directory takes what is below it along. */
  function OsMove(l: Layer, p: Path, q: Path, replace: bool): (Outcome, Layer) {
    if !HasParent(l, p) then (PathNotFound, l)
    else if p !in l then (NotFound, l)
    else if l[p].File? then
      var o := OsMoveTo(l, q, replace, p == q);
      (o, if o.Done? then (l - {p})[q := l[p]] else l)
    else
      var o := OsMoveDirTo(l, q, replace, p == q, p < q);
      (o, if o.Done? && p != q then Without(l, p) + Shifted(l, p, q) else l)
  }

  /** `CreateDirectoryW`, ignoring its failures. */
  function MakeDir(l: Layer, q: Path): Layer {
    if q !in l && HasParent(l, q) then l[q := Dir] else l
  }

  function MakeDirs(l: Layer, p: Path, k: nat): Layer
    requires k <= |p|
  {
    if k == 0 then l else MakeDir(MakeDirs(l, p, k - 1), p[..k])
  }

  /** Create every missing directory above `p`. */
  function EnsureParents(l: Layer, p: Path): Layer {
    if p == [] then l else MakeDirs(l, p, |p| - 1)
  }

  /** One of the first `k` components of `p` is a file. */
  ghost predicate BlockedTo(l: Layer, p: Path, k: nat)
    requires k <= |p|
  {
    exists i :: 0 <= i <= k && IsFile(l, p[..i])
  }

  /** Some component above `p` is a file, so the directories cannot be made. */
  ghost predicate Blocked(l: Layer, p: Path) {
    p != [] && BlockedTo(l, p, |p| - 1)
  }

  function At(l: Layer, p: Path): Option<Entry> {
    if p in l then Some(l[p]) else None
  }

  lemma SameLayer(a: Layer, b: Layer)
    requires forall p :: At(a, p) == At(b, p)
    ensures a == b
  {
    forall p ensures p in a <==> p in b {
      assert At(a, p) == At(b, p);
    }
    forall p <- a ensures a[p] == b[p] {
      assert At(a, p) == At(b, p);
    }
  }

  lemma {:induction false} MakeDirsEffect(l: Layer, p: Path, k: nat)
    requires Closed(l) && k <= |p|
    ensures Closed(MakeDirs(l, p, k))
    ensures BlockedTo(l, p, k) ==> MakeDirs(l, p, k) == l
    ensures !BlockedTo(l, p, k) ==>
              forall q {:trigger At(MakeDirs(l, p, k), q)} {:trigger At(l, q)} ::
                At(MakeDirs(l, p, k), q) == if q !in l && q <= p && |q| <= k then Some(Dir) else At(l, q)
  {
    if k == 0 {
      assert p[..0] == [];
    } else {
      MakeDirsEffect(l, p, k - 1);
      var m, q := MakeDirs(l, p, k - 1), p[..k];
      assert Parent(q) == p[..k - 1];
      if BlockedTo(l, p, k - 1) {
        var i :| 0 <= i <= k - 1 && IsFile(l, p[..i]);
        assert p[..i] <= q && (i < k - 1 ==> p[..i] <= Parent(q));
        NotBelowFile(l, p[..i], q);
        if i < k - 1 { NotBelowFile(l, p[..i], Parent(q)); }
      } else {
        assert At(m, Parent(q)) == if Parent(q) !in l then Some(Dir) else At(l, Parent(q));
        assert !IsFile(l, p[..k - 1]);
        assert HasParent(m, q);
        assert At(m, q) == At(l, q);
        if IsFile(l, q) {
          forall r ensures At(m, r) == At(l, r) {
            if r <= p && |r| <= k - 1 { ClosedAbove(l, q, r); }
          }
          SameLayer(m, l);
        }
        forall r: Path ensures r <= p && |r| <= k <==> r == q || (r <= p && |r| <= k - 1) {}
        forall r ensures At(MakeDir(m, q), r) == if r == q && q !in l then Some(Dir) else At(m, r) {}
      }
    }
  }

  /** Whatever the layer, only entries above `p` are made. */
  lemma {:induction false} MakesOnlyAbove(l: Layer, p: Path, k: nat, q: Path)
    requires k <= |p| && !(q <= p && |q| <= k)
    ensures At(MakeDirs(l, p, k), q) == At(l, q)
  {
    if k > 0 {
      MakesOnlyAbove(l, p, k - 1, q);
      assert q != p[..k];
    }
  }

  lemma NotBelowFile(l: Layer, f: Path, q: Path)
    requires Closed(l) && IsFile(l, f) && f <= q && f != q
    ensures q !in l
  {
    if q in l { ClosedAbove(l, q, f); }
  }

  /** `mkdir -p` of the directory of `p`: nothing if a file is in the way, else every missing
      directory above `p` and no more. */
  lemma EnsureParentsEffect(l: Layer, p: Path)
    requires Closed(l)
    ensures Closed(EnsureParents(l, p))
    ensures Blocked(l, p) ==> EnsureParents(l, p) == l && !HasParent(l, p)
    ensures !Blocked(l, p) ==> HasParent(EnsureParents(l, p), p)
    ensures !Blocked(l, p) ==>
              forall q {:trigger At(EnsureParents(l, p), q)} {:trigger At(l, q)} ::
                At(EnsureParents(l, p), q) == if q !in l && q < p then Some(Dir) else At(l, q)
  {
    if p != [] {
      MakeDirsEffect(l, p, |p| - 1);
      var d := Parent(p);
      forall q: Path ensures q < p <==> q <= p && |q| <= |p| - 1 {}
      if Blocked(l, p) {
        var i :| 0 <= i <= |p| - 1 && IsFile(l, p[..i]);
        assert p[..i] <= d;
        if p[..i] != d { NotBelowFile(l, p[..i], d); }
      } else {
        assert !IsFile(l, p[..|p| - 1]);
        assert At(EnsureParents(l, p), d) == if d !in l then Some(Dir) else At(l, d);
      }
    }
  }

  lemma WithoutClosed(l: Layer, p: Path)
    requires Closed(l) && p != []
    ensures Closed(Without(l, p))
  {
    var m := Without(l, p);
    assert At(m, []) == At(l, []);
    forall r {:trigger Parent(r)} | r in m ensures HasParent(m, r) {
      assert At(m, r) == At(l, r);
      assert HasParent(l, r);
      if r != [] { assert At(m, Parent(r)) == if p <= Parent(r) then None else At(l, Parent(r)); }
    }
  }

  /** A subtree set down where nothing is. */
  lemma GraftClosed(m: Layer, l: Layer, p: Path, q: Path)
    requires Closed(m) && Closed(l) && p in l && HasParent(m, q) && q !in m
    ensures Closed(m + Shifted(l, p, q))
    ensures forall r {:trigger At(m + Shifted(l, p, q), r)} ::
              At(m + Shifted(l, p, q), r) == if q <= r then At(l, p + r[|q|..]) else At(m, r)
  {
    var sh := Shifted(l, p, q);
    var g := m + sh;
    assert q != [];
    forall r ensures At(g, r) == if q <= r then At(l, p + r[|q|..]) else At(m, r) {
      assert At(sh, r) == if q <= r then At(l, p + r[|q|..]) else None;
      if q <= r && r in m && q != r { ClosedAbove(m, r, q); }
    }
    assert At(g, []) == At(m, []);
    forall r {:trigger Parent(r)} | r in g ensures HasParent(g, r) {
      if q <= r && q != r {
        var x := p + r[|q|..];
        assert At(g, r) == At(l, x) && HasParent(l, x);
        assert Parent(x) == p + Parent(r)[|q|..];
        assert At(g, Parent(r)) == At(l, Parent(x));
      } else if r != [] {
        assert At(g, r) == if q == r then At(l, p + r[|q|..]) else At(m, r);
        assert HasParent(m, r);
        assert !(q <= Parent(r));
        assert At(g, Parent(r)) == At(m, Parent(r));
      }
    }
  }
}
