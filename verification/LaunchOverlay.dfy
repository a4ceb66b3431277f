/** The write overlay under the policies of a launch. */
module LaunchOverlay {
  import opened Optional
  import opened Words
  import opened FileLayer
  import opened OverlayEngine
  import opened OverlayView
  import opened OverlayFrame
  import opened OverlayRefinement
  import opened LaunchPaths
  import opened Launcher
  import Scopes
  import F = ManifestFormat
  import OutputDirs
  import Listing

  /** The policy that the scopes of a launch give a path, as the hooks see it. */
  function PolicyOf(ss: seq<Scopes.Scope>, p: Path): Policy {
    var e := Scopes.Effective(ss, p);
    Policy(READ in e, READ_IF_ABSENT in e, WRITE in e, CREATE_DIRECTORY in e, Scopes.Scoped(ss, p), OVERRIDE in e)
  }

  /** The overlay's layers lie below the working directory. */
  function LaunchConfig(n: F.Norm, l: Launch, dirs: seq<Name>, filter: bool): Config {
    var ss, root := LaunchScopes(n, l, dirs), PathOf(n, l.workingDir);
    Config(filter, p => PolicyOf(ss, root + p))
  }

  /** What the hooks see of a path below the working directory: each right is the bit that the
      options give, the path is exact if it leads to one of them, and under the input filter a
      real file is hidden exactly if it may not be read and leads to none. */
  lemma LaunchSees(n: F.Norm, l: Launch, dirs: seq<Name>, filter: bool, p: Path)
    ensures var c, q := LaunchConfig(n, l, dirs, filter), PathOf(n, l.workingDir) + p;
            && (c.policy(p).read <==> GrantedAt(n, l, dirs, q, 0)) && (c.policy(p).write <==> GrantedAt(n, l, dirs, q, 1))
            && (c.policy(p).readIfAbsent <==> GrantedAt(n, l, dirs, q, 2)) && (c.policy(p).createDirectory <==> GrantedAt(n, l, dirs, q, 3))
            && (c.policy(p).redirect <==> GrantedAt(n, l, dirs, q, 10)) && (c.policy(p).exact <==> LeadsToOption(n, l, dirs, q))
            && (c.Hidden(p) <==> filter && !GrantedAt(n, l, dirs, q, 0) && !LeadsToOption(n, l, dirs, q))
  {
    hide LaunchScopes, PathOf, Scopes.Effective, Scopes.Scoped, OptionsGive, LeadsToOption;
    var q := PathOf(n, l.workingDir) + p;
    forall bit: nat ensures bit in Scopes.Effective(LaunchScopes(n, l, dirs), q) <==> GrantedAt(n, l, dirs, q, bit) {
      LaunchPolicy(n, l, dirs, q, bit);
    }
    LaunchScoped(n, l, dirs, q);
  }

  /** The launcher made its output directories and the backing root on the real disk. */
  ghost predicate Prepared(n: F.Norm, l: Launch, dirs: seq<Name>, disk: Layer) {
    var root := PathOf(n, l.workingDir);
    && Closed(disk)
    && (forall p, d :: d in dirs && PathOf(n, d) == root + p ==> IsDir(disk, p))
    && (l.overlay.On? ==> forall p :: root + p == PathOf(n, l.overlay.root) ==> IsDir(disk, p))
  }

  /** So the overlay of a launch starts coherent. */
  lemma LaunchCoherent(n: F.Norm, l: Launch, dirs: seq<Name>, filter: bool, disk: Layer)
    requires Prepared(n, l, dirs, disk)
    ensures Coherent(LaunchConfig(n, l, dirs, filter), Store(disk, map[[] := Dir]))
  {
    hide LaunchScopes, PathOf, Scopes.Effective, Scopes.Scoped;
    var c, root := LaunchConfig(n, l, dirs, filter), PathOf(n, l.workingDir);
    forall p, q | q < p && c.policy(p).redirect && !c.policy(q).redirect ensures IsDir(disk, q) {
      assert root + q < root + p;
      ConeReachesUp(n, l, dirs, root + p, root + q);
    }
    FreshCoherent(c, disk);
  }

  /** Where a launch may write on the real disk its directory is a real one: the output
      directories see to that. So of the ways to depart from a one-layer file system, those
      with a declared output in a directory of the overlay cannot arise. */
  lemma LaunchHasNoOrphans(n: F.Norm, l: Launch, fold: OutputDirs.Fold, filter: bool, s: Store, p: Path)
    requires FoldsAlike(n, fold) && AbsoluteDir(l.workingDir) && forall w <- l.writable :: Absolute(w)
    requires Prepared(n, l, DirsOf(l, fold), s.disk)
    requires var e := LaunchConfig(n, l, DirsOf(l, fold), filter).policy(p); e.write && !e.redirect
    ensures !Orphan(LaunchConfig(n, l, DirsOf(l, fold), filter), s, p)
  {
    hide LaunchScopes, PathOf, Scopes.Effective, Scopes.Scoped, DirsOf, Files;
    var dirs := DirsOf(l, fold);
    var c, root := LaunchConfig(n, l, dirs, filter), PathOf(n, l.workingDir);
    if p != [] {
      var d := Parent(p);
      FilesAt(c, s, d);
      if p in s.disk { assert HasParent(s.disk, p); }
      if Orphan(c, s, p) {
        assert Scopes.Parent(root + p) == root + d;
        WritableInCone(n, l, dirs, root + p);
        var w :| w in l.writable && PathOf(n, w) == root + p;
        ParentListed(n, l, fold, w);
        OverrideConfinement(n, l, dirs, root + d);
        assert false;
      }
    }
  }

  /** Over the whole run of a launch no real file in the cone changes, as long as no real
      directory is renamed. */
  lemma LaunchKeepsRealFiles(n: F.Norm, l: Launch, dirs: seq<Name>, filter: bool, disk: Layer, calls: seq<Call>, r: Path)
    requires Prepared(n, l, dirs, disk)
    requires var c, s := LaunchConfig(n, l, dirs, filter), Store(disk, map[[] := Dir]);
             c.policy(r).redirect && TameRun(c, s, calls)
    ensures At(Run(LaunchConfig(n, l, dirs, filter), Store(disk, map[[] := Dir]), calls).disk, r) == At(disk, r)
  {
    hide LaunchConfig, Run, TameRun;
    var c, s := LaunchConfig(n, l, dirs, filter), Store(disk, map[[] := Dir]);
    LaunchCoherent(n, l, dirs, filter, disk);
    RealLayerImmutable(c, s, calls, r);
  }

  /** And in every state that a well-behaved run of a launch reaches, listings agree with the
      merged view. */
  lemma LaunchListingAgrees(n: F.Norm, l: Launch, dirs: seq<Name>, filter: bool, disk: Layer, calls: seq<Call>,
                            d: Path, e: Listing.Enumeration, back: seq<Name>, name: Name)
    requires Prepared(n, l, dirs, disk) && !Listing.Dot(name)
    requires var c, s := LaunchConfig(n, l, dirs, filter), Store(disk, map[[] := Dir]);
             WellBehaved(c, s, calls) && Listing.Listable(c, Run(c, s, calls), d) && Listing.FullScan(c, Run(c, s, calls), d, e, back)
    ensures var c := LaunchConfig(n, l, dirs, filter);
            var s := Run(c, Store(disk, map[[] := Dir]), calls);
            name in Listing.Scanned(e)
            <==> (d + [name] in Files(c, s) && !Listing.Missed(c, s, d + [name])) || Listing.Leaked(c, s, d, e, name)
  {
    hide LaunchConfig, Run, WellBehaved, Listing.FullScan, Listing.Scanned, Files, Listing.Missed, Listing.Leaked, Listing.Listable;
    var c := LaunchConfig(n, l, dirs, filter);
    LaunchCoherent(n, l, dirs, filter, disk);
    CoherentDisk(c, Store(disk, map[[] := Dir]));
    Listing.ReachedListingAgrees(c, disk, calls, d, e, back, name);
  }

  lemma CoherentDisk(c: Config, s: Store)
    requires Coherent(c, s)
    ensures Closed(s.disk) && ConeAnchored(c, s.disk)
  {}
}
