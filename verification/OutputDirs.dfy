/** The directories that declared outputs need, derived from their paths. */
module OutputDirs {
  import opened Words
  import opened ManifestFormat
  import opened ManifestReader
  import opened Ordering

  type Fold = WChar -> WChar

  /** `path` is a strict descendant of `root`, up to case. */
  predicate IsStrictlyUnder(path: Frag, root: Frag, fold: Fold) {
    root != [] &&
    var rlen := if IsSep(root[|root| - 1]) then |root| - 1 else |root|;
    && |path| > rlen && (forall i :: 0 <= i < rlen ==> fold(path[i]) == fold(root[i]))
    && IsSep(path[rlen])
  }

  /** Everything before the last separator, or nothing. */
  function ParentDir(path: Frag): (d: Frag)
    ensures d <= path && (path != [] ==> |d| < |path|)
  {
    if path == [] then []
    else if IsSep(path[|path| - 1]) then path[..|path| - 1]
    else ParentDir(path[..|path| - 1])
  }

  /** `d` is `path` cut at one of its separators. */
  predicate Ancestor(d: Frag, path: Frag) {
    d <= path && |d| < |path| && IsSep(path[|d|])
  }

  /** Upwards from `dir` while still strictly below the root. */
  function Chain(dir: Frag, root: Frag, fold: Fold): (ds: seq<Frag>)
    decreases |dir|
  {
    if IsStrictlyUnder(dir, root, fold) then [dir] + Chain(ParentDir(dir), root, fold) else []
  }

  lemma {:induction false} ParentIs(path: Frag)
    ensures forall d :: Ancestor(d, path) <==> (ParentDir(path) == d && Ancestor(d, path)) || Ancestor(d, ParentDir(path))
    ensures (exists d :: Ancestor(d, path)) ==> Ancestor(ParentDir(path), path)
    decreases |path|
  {
    if path != [] {
      var front := path[..|path| - 1];
      if IsSep(path[|path| - 1]) {
        forall d: Frag ensures Ancestor(d, path) <==> d == front || Ancestor(d, front) {
          if d <= path && |d| == |front| { assert d == front; }
        }
      } else {
        ParentIs(front);
        forall d: Frag ensures Ancestor(d, path) <==> Ancestor(d, front) {}
      }
    }
  }

  lemma UnderHasParent(path: Frag, root: Frag, fold: Fold)
    requires IsStrictlyUnder(path, root, fold)
    ensures Ancestor(ParentDir(path), path)
  {
    var rlen := if IsSep(root[|root| - 1]) then |root| - 1 else |root|;
    assert Ancestor(path[..rlen], path);
    ParentIs(path);
  }

  /** A path below something strictly under the root is strictly under the root. */
  lemma UnderBelow(d: Frag, path: Frag, root: Frag, fold: Fold)
    requires d <= path && IsStrictlyUnder(d, root, fold)
    ensures IsStrictlyUnder(path, root, fold)
  {}

  lemma {:induction false} ChainIs(dir: Frag, root: Frag, fold: Fold, d: Frag)
    ensures d in Chain(dir, root, fold) <==> IsStrictlyUnder(d, root, fold) && (d == dir || Ancestor(d, dir))
    decreases |dir|
  {
    hide IsStrictlyUnder, ParentDir;
    if IsStrictlyUnder(dir, root, fold) {
      UnderHasParent(dir, root, fold);
      ParentIs(dir);
      ChainIs(ParentDir(dir), root, fold, d);
    } else if IsStrictlyUnder(d, root, fold) && d <= dir {
      UnderBelow(d, dir, root, fold);
    }
  }

  /** The output directories: the proper ancestors of writable paths strictly below the
      working directory. */
  ghost predicate IsOutputDir(d: Frag, writable: seq<Frag>, root: Frag, fold: Fold) {
    IsStrictlyUnder(d, root, fold) && exists p <- writable :: Ancestor(d, p)
  }

  lemma OutputChain(p: Frag, root: Frag, fold: Fold, d: Frag)
    ensures d in Chain(ParentDir(p), root, fold) <==> IsStrictlyUnder(d, root, fold) && Ancestor(d, p)
  {
    hide Chain, IsStrictlyUnder;
    ChainIs(ParentDir(p), root, fold, d);
    ParentIs(p);
    if d == ParentDir(p) && IsStrictlyUnder(d, root, fold) && !Ancestor(d, p) {
      NoParent(p);
      assert !IsStrictlyUnder([], root, fold) by { NothingUnder(root, fold); }
    }
  }

  lemma {:induction false} NoParent(p: Frag)
    requires !Ancestor(ParentDir(p), p)
    ensures ParentDir(p) == []
    decreases |p|
  {
    if p != [] && !IsSep(p[|p| - 1]) {
      NoParent(p[..|p| - 1]);
    }
  }

  lemma NothingUnder(root: Frag, fold: Fold)
    ensures !IsStrictlyUnder([], root, fold)
  {}

  // ---- Shortest first ----

  ghost predicate ByLength(ds: seq<Frag>) {
    forall i, j :: 0 <= i < j < |ds| ==> |ds[i]| <= |ds[j]|
  }

  function InsertByLength(d: Frag, ds: seq<Frag>): (r: seq<Frag>)
    ensures multiset(r) == multiset(ds) + multiset{d}
  {
    if ds == [] || |d| <= |ds[0]| then [d] + ds
    else
      assert ds == [ds[0]] + ds[1..];
      [ds[0]] + InsertByLength(d, ds[1..])
  }

  /** `std::sort` by size. */
  function SortByLength(ds: seq<Frag>): (r: seq<Frag>)
    ensures multiset(r) == multiset(ds)
  {
    if ds == [] then []
    else
      assert ds == [ds[0]] + ds[1..];
      InsertByLength(ds[0], SortByLength(ds[1..]))
  }

  lemma {:induction false} InsertKeepsOrder(d: Frag, ds: seq<Frag>)
    requires ByLength(ds)
    ensures ByLength(InsertByLength(d, ds))
  {
    if ds != [] && |d| > |ds[0]| {
      var rest := InsertByLength(d, ds[1..]);
      InsertKeepsOrder(d, ds[1..]);
      forall j | 0 <= j < |rest| ensures |ds[0]| <= |rest[j]| {
        assert rest[j] in multiset(rest);
        if rest[j] != d {
          assert rest[j] in ds[1..];
          var k :| 0 <= k < |ds[1..]| && ds[1..][k] == rest[j];
          assert ds[k + 1] == rest[j];
        }
      }
    }
  }

  lemma {:induction false} SortOrders(ds: seq<Frag>)
    ensures ByLength(SortByLength(ds))
    ensures forall d :: d in SortByLength(ds) <==> d in ds
  {
    if ds != [] {
      SortOrders(ds[1..]);
      InsertKeepsOrder(ds[0], SortByLength(ds[1..]));
    }
    forall d ensures d in SortByLength(ds) <==> d in ds {
      assert d in multiset(SortByLength(ds)) <==> d in multiset(ds);
    }
  }

  /** Each directory comes after its parent, if that is one of them at all. */
  lemma ParentsFirst(ds: seq<Frag>, writable: seq<Frag>, root: Frag, fold: Fold, j: nat)
    requires ByLength(ds) && (forall d :: d in ds <==> IsOutputDir(d, writable, root, fold)) && j < |ds|
    ensures ParentDir(ds[j]) in ds[..j] || !IsStrictlyUnder(ParentDir(ds[j]), root, fold)
  {
    hide IsStrictlyUnder, ParentDir;
    var d := ds[j];
    var e := ParentDir(d);
    assert d in ds;
    if IsStrictlyUnder(e, root, fold) {
      UnderHasParent(d, root, fold);
      var p :| p in writable && Ancestor(d, p);
      assert Ancestor(e, p);
      assert IsOutputDir(e, writable, root, fold);
      assert e in ds;
      var i :| 0 <= i < |ds| && ds[i] == e;
      assert |ds[i]| < |ds[j]|;
      assert ds[..j][i] == e;
    }
  }

  // ---- Collecting them ----

  /** Push back each of `ds` that is not there yet. */
  function AddNew(dirs: seq<Frag>, ds: seq<Frag>): (r: seq<Frag>)
    ensures forall d :: d in r <==> d in dirs || d in ds
    ensures NoDuplicates(dirs) ==> NoDuplicates(r)
    decreases |ds|
  {
    if ds == [] then dirs
    else
      assert ds == [ds[0]] + ds[1..];
      AddNew(if ds[0] in dirs then dirs else dirs + [ds[0]], ds[1..])
  }

  function Collect(writable: seq<Frag>, root: Frag, fold: Fold): (dirs: seq<Frag>)
    ensures NoDuplicates(dirs)
  {
    if writable == [] then []
    else AddNew(Collect(writable[..|writable| - 1], root, fold), Chain(ParentDir(writable[|writable| - 1]), root, fold))
  }

  function OutputDirsOf(writable: seq<Frag>, root: Frag, fold: Fold): seq<Frag> {
    SortByLength(Collect(writable, root, fold))
  }

  lemma {:induction false} CollectHas(writable: seq<Frag>, root: Frag, fold: Fold, d: Frag)
    ensures d in Collect(writable, root, fold) <==> IsOutputDir(d, writable, root, fold)
  {
    hide IsStrictlyUnder, ParentDir, Ancestor, Chain;
    if writable != [] {
      var k := |writable| - 1;
      CollectHas(writable[..k], root, fold, d);
      OutputChain(writable[k], root, fold, d);
      assert writable == writable[..k] + [writable[k]];
    }
  }

  /** The output directories are exactly the proper ancestors of the writable paths strictly
      below the working directory, each once, shortest first, so that each comes after its
      parent. */
  lemma OutputDirsAre(writable: seq<Frag>, root: Frag, fold: Fold)
    ensures var dirs := OutputDirsOf(writable, root, fold);
            && (forall d :: d in dirs <==> IsOutputDir(d, writable, root, fold))
            && ByLength(dirs) && NoDuplicates(dirs)
            && forall j :: 0 <= j < |dirs| ==> ParentDir(dirs[j]) in dirs[..j] || !IsStrictlyUnder(ParentDir(dirs[j]), root, fold)
  {
    hide IsStrictlyUnder, ParentDir, Collect, SortByLength, IsOutputDir, ByLength, NoDuplicates;
    var found, dirs := Collect(writable, root, fold), OutputDirsOf(writable, root, fold);
    SortOrders(found);
    DistinctByCount(found);
    DistinctByCount(dirs);
    forall d ensures d in dirs <==> IsOutputDir(d, writable, root, fold) {
      CollectHas(writable, root, fold, d);
    }
    forall j | 0 <= j < |dirs| ensures ParentDir(dirs[j]) in dirs[..j] || !IsStrictlyUnder(ParentDir(dirs[j]), root, fold) {
      ParentsFirst(dirs, writable, root, fold, j);
    }
  }

  method DeriveOutputDirs(writable: seq<Frag>, workingDir: Frag, fold: Fold) returns (dirs: seq<Frag>)
    ensures dirs == OutputDirsOf(writable, workingDir, fold)
  {
    hide IsStrictlyUnder, ParentDir, Chain, SortByLength, NoDuplicates;
    dirs := [];
    var seen: set<Frag> := {};
    for k := 0 to |writable|
      invariant forall d :: d in seen <==> d in dirs
      invariant dirs == Collect(writable[..k], workingDir, fold)
    {
      assert writable[..k + 1][..k] == writable[..k];
      var dir := ParentDir(writable[k]);
      while IsStrictlyUnder(dir, workingDir, fold)
        invariant forall d :: d in seen <==> d in dirs
        invariant AddNew(dirs, Chain(dir, workingDir, fold)) == Collect(writable[..k + 1], workingDir, fold)
        decreases |dir|
      {
        ChainStep(dir, workingDir, fold);
        if dir !in seen {
          seen := seen + {dir};
          dirs := dirs + [dir];
        }
        dir := ParentDir(dir);
      }
      ChainStep(dir, workingDir, fold);
    }
    assert writable[..|writable|] == writable;
    dirs := SortByLength(dirs);
  }

  lemma ChainStep(dir: Frag, root: Frag, fold: Fold)
    ensures Chain(dir, root, fold) == if IsStrictlyUnder(dir, root, fold) then [dir] + Chain(ParentDir(dir), root, fold) else []
    ensures IsStrictlyUnder(dir, root, fold) ==> |ParentDir(dir)| < |dir|
  {
    NothingUnder(root, fold);
  }
}
