/** The scopes a launch gives the manifest, and what they confine. */
module Launcher {
  import opened Words
  import opened ManifestFormat
  import opened ManifestReader
  import opened ManifestPayload
  import opened ManifestTree
  import opened ManifestBuilder
  import opened ManifestAgreement
  import opened Scopes
  import opened OutputDirs

  // Policy bits, by number.
  const READ := 0
  const WRITE := 1
  const READ_IF_ABSENT := 2
  const CREATE_DIRECTORY := 3
  const SYMLINK := 8
  const OVERRIDE := 10
  const DECLARED := 13

  const ReadOnly: Bits := {READ, READ_IF_ABSENT}
  const AllowAll: Bits := {READ, READ_IF_ABSENT, WRITE, CREATE_DIRECTORY, SYMLINK}
  const Declared: Bits := {READ, READ_IF_ABSENT, DECLARED}
  const Writable: Bits := {READ, READ_IF_ABSENT, WRITE, CREATE_DIRECTORY, SYMLINK, DECLARED}
  const OutputDir: Bits := {READ, READ_IF_ABSENT, WRITE, CREATE_DIRECTORY, DECLARED}

  datatype Overlay = Off | On(root: Frag)

  /** The options that decide policy; `-r`, `-w` and `-b` paths in the order given. */
  datatype Launch = Launch(workingDir: Frag, tool: Frag, readOnly: seq<Frag>, writable: seq<Frag>, blocked: seq<Frag>,
                           hermetic: bool, overlay: Overlay)
  {
    function WorkingDirPolicy(): Bits {
      (if hermetic then {} else ReadOnly) + (if overlay.On? then {WRITE, CREATE_DIRECTORY, OVERRIDE} else {})
    }
  }

  function Cones(ps: seq<Frag>, values: Bits): (cs: seq<Call>)
    ensures |cs| == |ps| && forall i :: 0 <= i < |ps| ==> cs[i] == ConeScope(ps[i], {}, values)
  {
    seq(|ps|, i requires 0 <= i < |ps| => ConeScope(ps[i], {}, values))
  }

  function Nodes(ps: seq<Frag>, values: Bits): (cs: seq<Call>)
    ensures |cs| == |ps| && forall i :: 0 <= i < |ps| ==> cs[i] == NodeScope(ps[i], {}, values)
  {
    seq(|ps|, i requires 0 <= i < |ps| => NodeScope(ps[i], {}, values))
  }

  /** The scopes in the order they are added; `dirs` are the output directories. */
  function CallsOf(l: Launch, dirs: seq<Frag>): seq<Call> {
    [RootScope({}, ReadOnly), ConeScope(l.workingDir, {}, l.WorkingDirPolicy()), ConeScope(l.tool, {}, Declared)]
    + Cones(l.readOnly, Declared) + Cones(l.writable, Writable) + Cones(l.blocked, {}) + Nodes(dirs, OutputDir)
    + (if l.overlay.On? then [ConeScope(l.overlay.root, {}, AllowAll)] else [])
  }

  function PathOf(n: Norm, path: Frag): NodePath {
    Normalize(n, Split(path, 0))
  }

  function LaunchScopes(n: Norm, l: Launch, dirs: seq<Frag>): seq<Scope> {
    ScopesOf(n, CallsOf(l, dirs))
  }

  // ---- Where each scope comes from ----

  lemma ScopesFrom(n: Norm, calls: seq<Call>, s: Scope)
    ensures s in ScopesOf(n, calls) <==> exists c <- calls :: ScopeOf(n, c) == s
  {
    var ss := ScopesOf(n, calls);
    if s in ss {
      var i :| 0 <= i < |ss| && ss[i] == s;
      assert calls[i] in calls;
    }
    if exists c <- calls :: ScopeOf(n, c) == s {
      var c :| c in calls && ScopeOf(n, c) == s;
      var i :| 0 <= i < |calls| && calls[i] == c;
      assert ss[i] == s;
    }
  }

  lemma InCones(ps: seq<Frag>, values: Bits, c: Call)
    ensures c in Cones(ps, values) <==> exists p <- ps :: c == ConeScope(p, {}, values)
  {
    if exists p <- ps :: c == ConeScope(p, {}, values) {
      var p :| p in ps && c == ConeScope(p, {}, values);
      var i :| 0 <= i < |ps| && ps[i] == p;
      assert Cones(ps, values)[i] == c;
    }
  }

  lemma InNodes(ps: seq<Frag>, values: Bits, c: Call)
    ensures c in Nodes(ps, values) <==> exists p <- ps :: c == NodeScope(p, {}, values)
  {
    if exists p <- ps :: c == NodeScope(p, {}, values) {
      var p :| p in ps && c == NodeScope(p, {}, values);
      var i :| 0 <= i < |ps| && ps[i] == p;
      assert Nodes(ps, values)[i] == c;
    }
  }

  lemma CallIs(l: Launch, dirs: seq<Frag>, c: Call)
    ensures c in CallsOf(l, dirs) <==>
      || c == RootScope({}, ReadOnly) || c == ConeScope(l.workingDir, {}, l.WorkingDirPolicy()) || c == ConeScope(l.tool, {}, Declared)
      || (exists p <- l.readOnly :: c == ConeScope(p, {}, Declared))
      || (exists p <- l.writable :: c == ConeScope(p, {}, Writable))
      || (exists p <- l.blocked :: c == ConeScope(p, {}, {}))
      || (exists p <- dirs :: c == NodeScope(p, {}, OutputDir))
      || (l.overlay.On? && c == ConeScope(l.overlay.root, {}, AllowAll))
  {
    hide Cones, Nodes;
    InCones(l.readOnly, Declared, c);
    InCones(l.writable, Writable, c);
    InCones(l.blocked, {}, c);
    InNodes(dirs, OutputDir, c);
  }

  // ---- What a replacing scope list gives each bit ----

  ghost predicate NodeAt(ss: seq<Scope>, p: NodePath) {
    exists s <- ss :: s.path == p && s.exact
  }

  ghost predicate GivenAt(ss: seq<Scope>, p: NodePath, exact: bool, bit: nat) {
    exists s <- ss :: s.path == p && s.exact == exact && bit in s.values
  }

  /** A bit of a path's policy is given by its node scopes if it has any, else by the scopes at
      its deepest cone. */
  lemma EffectiveBit(ss: seq<Scope>, p: NodePath, bit: nat)
    requires Replacing(ss)
    ensures bit in Effective(ss, p) <==> if NodeAt(ss, p) then GivenAt(ss, p, true, bit) else GivenAt(ss, DeepestCone(ss, p), false, bit)
  {
    ReplacingCone(ss, p);
    ConeWithinMask(ss, p);
    if NodeAt(ss, p) {
      var s :| s in ss && s.path == p && s.exact;
      assert Scoped(ss, p);
      assert MaskAt(ss, p, true) == {};
    } else {
      assert MaskAt(ss, p, true) == MaskNothing && ValuesAt(ss, p, true) == {};
    }
  }

  lemma LaunchReplaces(n: Norm, l: Launch, dirs: seq<Frag>)
    ensures Replacing(LaunchScopes(n, l, dirs))
  {
    hide CallsOf, Split, Normalize;
    forall s <- LaunchScopes(n, l, dirs) ensures s.mask == {} && s.values <= MaskNothing {
      ScopesFrom(n, CallsOf(l, dirs), s);
      var c :| c in CallsOf(l, dirs) && ScopeOf(n, c) == s;
      CallIs(l, dirs, c);
    }
  }

  /** Where the overlay itself may be written: the working directory's cone and the backing
      store. */
  predicate OverlayWrites(n: Norm, l: Launch, q: NodePath) {
    l.overlay.On? && (q == PathOf(n, l.workingDir) || q == PathOf(n, l.overlay.root))
  }

  /** Cone scopes with the write bit come from `-w` paths and from the overlay. */
  lemma WriteCone(n: Norm, l: Launch, dirs: seq<Frag>, q: NodePath)
    ensures GivenAt(LaunchScopes(n, l, dirs), q, false, WRITE) <==> (exists w <- l.writable :: PathOf(n, w) == q) || OverlayWrites(n, l, q)
  {
    hide CallsOf, Split, Normalize;
    var ss := LaunchScopes(n, l, dirs);
    if GivenAt(ss, q, false, WRITE) {
      var s :| s in ss && s.path == q && !s.exact && WRITE in s.values;
      ScopesFrom(n, CallsOf(l, dirs), s);
      var c :| c in CallsOf(l, dirs) && ScopeOf(n, c) == s;
      CallIs(l, dirs, c);
    }
    if exists w <- l.writable :: PathOf(n, w) == q {
      var w :| w in l.writable && PathOf(n, w) == q;
      Gives(n, l, dirs, ConeScope(w, {}, Writable), q);
    }
    if OverlayWrites(n, l, q) {
      Gives(n, l, dirs, if q == PathOf(n, l.workingDir) then ConeScope(l.workingDir, {}, l.WorkingDirPolicy())
                        else ConeScope(l.overlay.root, {}, AllowAll), q);
    }
  }

  lemma Gives(n: Norm, l: Launch, dirs: seq<Frag>, c: Call, q: NodePath)
    requires c.ConeScope? && PathOf(n, c.path) == q && WRITE in c.values
    requires (exists w <- l.writable :: c == ConeScope(w, {}, Writable)) || c == ConeScope(l.workingDir, {}, l.WorkingDirPolicy())
             || (l.overlay.On? && c == ConeScope(l.overlay.root, {}, AllowAll))
    ensures GivenAt(LaunchScopes(n, l, dirs), q, false, WRITE)
  {
    hide CallsOf, Split, Normalize;
    CallIs(l, dirs, c);
    ScopesFrom(n, CallsOf(l, dirs), ScopeOf(n, c));
  }

  lemma OverrideCone(n: Norm, l: Launch, dirs: seq<Frag>, q: NodePath)
    ensures GivenAt(LaunchScopes(n, l, dirs), q, false, OVERRIDE) <==> l.overlay.On? && q == PathOf(n, l.workingDir)
  {
    hide CallsOf, Split, Normalize;
    var ss := LaunchScopes(n, l, dirs);
    if GivenAt(ss, q, false, OVERRIDE) {
      var s :| s in ss && s.path == q && !s.exact && OVERRIDE in s.values;
      ScopesFrom(n, CallsOf(l, dirs), s);
      var c :| c in CallsOf(l, dirs) && ScopeOf(n, c) == s;
      CallIs(l, dirs, c);
    }
    var c := ConeScope(l.workingDir, {}, l.WorkingDirPolicy());
    CallIs(l, dirs, c);
    ScopesFrom(n, CallsOf(l, dirs), ScopeOf(n, c));
  }

  /** Node scopes come from output directories, and give them the write bit but never the
      override bit. */
  lemma OutputNode(n: Norm, l: Launch, dirs: seq<Frag>, p: NodePath)
    ensures var ss := LaunchScopes(n, l, dirs);
            && (NodeAt(ss, p) <==> exists d <- dirs :: PathOf(n, d) == p)
            && (NodeAt(ss, p) <==> GivenAt(ss, p, true, WRITE))
            && !GivenAt(ss, p, true, OVERRIDE)
  {
    hide CallsOf, Split, Normalize;
    var ss := LaunchScopes(n, l, dirs);
    forall s | s in ss && s.path == p && s.exact ensures s.values == OutputDir && exists d <- dirs :: PathOf(n, d) == p {
      ScopesFrom(n, CallsOf(l, dirs), s);
      var c :| c in CallsOf(l, dirs) && ScopeOf(n, c) == s;
      CallIs(l, dirs, c);
    }
    if exists d <- dirs :: PathOf(n, d) == p {
      var d :| d in dirs && PathOf(n, d) == p;
      var c := NodeScope(d, {}, OutputDir);
      CallIs(l, dirs, c);
      ScopesFrom(n, CallsOf(l, dirs), ScopeOf(n, c));
    }
  }

  // ---- Every bit ----

  /** Which cone scopes a launch adds. */
  lemma LaunchCones(n: Norm, l: Launch, dirs: seq<Frag>, q: NodePath)
    ensures HasCone(LaunchScopes(n, l, dirs), q) <==>
      || q == [] || q == PathOf(n, l.workingDir) || q == PathOf(n, l.tool)
      || (exists p <- l.readOnly :: PathOf(n, p) == q) || (exists p <- l.writable :: PathOf(n, p) == q)
      || (exists p <- l.blocked :: PathOf(n, p) == q) || (l.overlay.On? && q == PathOf(n, l.overlay.root))
  {
    hide CallsOf, Split, Normalize;
    var ss, calls := LaunchScopes(n, l, dirs), CallsOf(l, dirs);
    if HasCone(ss, q) {
      var s :| s in ss && s.path == q && !s.exact;
      ScopesFrom(n, calls, s);
      var c :| c in calls && ScopeOf(n, c) == s;
      CallIs(l, dirs, c);
    }
    ConeFrom(n, l, dirs, RootScope({}, ReadOnly));
    ConeFrom(n, l, dirs, ConeScope(l.workingDir, {}, l.WorkingDirPolicy()));
    ConeFrom(n, l, dirs, ConeScope(l.tool, {}, Declared));
    forall p | p in l.readOnly ensures HasCone(ss, PathOf(n, p)) { ConeFrom(n, l, dirs, ConeScope(p, {}, Declared)); }
    forall p | p in l.writable ensures HasCone(ss, PathOf(n, p)) { ConeFrom(n, l, dirs, ConeScope(p, {}, Writable)); }
    forall p | p in l.blocked ensures HasCone(ss, PathOf(n, p)) { ConeFrom(n, l, dirs, ConeScope(p, {}, {})); }
    if l.overlay.On? { ConeFrom(n, l, dirs, ConeScope(l.overlay.root, {}, AllowAll)); }
  }

  lemma ConeFrom(n: Norm, l: Launch, dirs: seq<Frag>, c: Call)
    ensures c in CallsOf(l, dirs) && !c.NodeScope? ==> HasCone(LaunchScopes(n, l, dirs), ScopeOf(n, c).path)
    ensures c == RootScope({}, ReadOnly) || c == ConeScope(l.workingDir, {}, l.WorkingDirPolicy()) || c == ConeScope(l.tool, {}, Declared)
            || (exists p <- l.readOnly :: c == ConeScope(p, {}, Declared)) || (exists p <- l.writable :: c == ConeScope(p, {}, Writable))
            || (exists p <- l.blocked :: c == ConeScope(p, {}, {})) || (l.overlay.On? && c == ConeScope(l.overlay.root, {}, AllowAll))
            ==> c in CallsOf(l, dirs)
  {
    hide CallsOf, Split, Normalize;
    CallIs(l, dirs, c);
    ScopesFrom(n, CallsOf(l, dirs), ScopeOf(n, c));
  }

  /** The bits that the options give at the path `q`: AllowRead, AllowWrite, AllowReadIfNonExistent
      and AllowCreateDirectory are bits 0 to 3, AllowSymlinkCreation is 8, the override bit 10
      and the mark of a declared input 13. */
  ghost predicate OptionsGive(n: Norm, l: Launch, q: NodePath, bit: nat) {
    || (bit in {0, 2} && q == [])
    || (bit in {0, 2} && q == PathOf(n, l.workingDir) && !l.hermetic)
    || (bit in {1, 3, 10} && q == PathOf(n, l.workingDir) && l.overlay.On?)
    || (bit in {0, 2, 13} && q == PathOf(n, l.tool))
    || (bit in {0, 2, 13} && exists p <- l.readOnly :: PathOf(n, p) == q)
    || (bit in {0, 1, 2, 3, 8, 13} && exists p <- l.writable :: PathOf(n, p) == q)
    || (bit in {0, 1, 2, 3, 8} && l.overlay.On? && q == PathOf(n, l.overlay.root))
  }

  lemma GivenByOptions(n: Norm, l: Launch, dirs: seq<Frag>, q: NodePath, bit: nat)
    ensures GivenAt(LaunchScopes(n, l, dirs), q, false, bit) <==> OptionsGive(n, l, q, bit)
  {
    hide CallsOf, Split, Normalize;
    var ss, calls := LaunchScopes(n, l, dirs), CallsOf(l, dirs);
    if GivenAt(ss, q, false, bit) {
      var s :| s in ss && s.path == q && !s.exact && bit in s.values;
      ScopesFrom(n, calls, s);
      var c :| c in calls && ScopeOf(n, c) == s;
      CallIs(l, dirs, c);
    }
    GivenFrom(n, l, dirs, RootScope({}, ReadOnly), bit);
    GivenFrom(n, l, dirs, ConeScope(l.workingDir, {}, l.WorkingDirPolicy()), bit);
    GivenFrom(n, l, dirs, ConeScope(l.tool, {}, Declared), bit);
    forall p | p in l.readOnly && bit in Declared ensures GivenAt(ss, PathOf(n, p), false, bit) {
      GivenFrom(n, l, dirs, ConeScope(p, {}, Declared), bit);
    }
    forall p | p in l.writable && bit in Writable ensures GivenAt(ss, PathOf(n, p), false, bit) {
      GivenFrom(n, l, dirs, ConeScope(p, {}, Writable), bit);
    }
    if l.overlay.On? { GivenFrom(n, l, dirs, ConeScope(l.overlay.root, {}, AllowAll), bit); }
  }

  lemma GivenFrom(n: Norm, l: Launch, dirs: seq<Frag>, c: Call, bit: nat)
    requires !c.NodeScope? && (c.RootScope? || c.ConeScope?)
    requires c == RootScope({}, ReadOnly) || c == ConeScope(l.workingDir, {}, l.WorkingDirPolicy()) || c == ConeScope(l.tool, {}, Declared)
             || (exists p <- l.readOnly :: c == ConeScope(p, {}, Declared)) || (exists p <- l.writable :: c == ConeScope(p, {}, Writable))
             || (l.overlay.On? && c == ConeScope(l.overlay.root, {}, AllowAll))
    ensures bit in ScopeOf(n, c).values ==> GivenAt(LaunchScopes(n, l, dirs), ScopeOf(n, c).path, false, bit)
  {
    hide CallsOf, Split, Normalize;
    CallIs(l, dirs, c);
    ScopesFrom(n, CallsOf(l, dirs), ScopeOf(n, c));
  }

  lemma NodeBits(n: Norm, l: Launch, dirs: seq<Frag>, p: NodePath, bit: nat)
    ensures var ss := LaunchScopes(n, l, dirs);
            NodeAt(ss, p) ==> (GivenAt(ss, p, true, bit) <==> bit in {0, 1, 2, 3, 13})
  {
    hide CallsOf, Split, Normalize;
    var ss := LaunchScopes(n, l, dirs);
    forall s | s in ss && s.path == p && s.exact ensures s.values == {0, 1, 2, 3, 13} {
      ScopesFrom(n, CallsOf(l, dirs), s);
      var c :| c in CallsOf(l, dirs) && ScopeOf(n, c) == s;
      CallIs(l, dirs, c);
    }
  }

  /** The policy bit of an output directory if the path is one, else of what the options give
      at its deepest scoped prefix. */
  ghost predicate GrantedAt(n: Norm, l: Launch, dirs: seq<Frag>, p: NodePath, bit: nat) {
    if exists d <- dirs :: PathOf(n, d) == p then bit in {0, 1, 2, 3, 13}
    else OptionsGive(n, l, DeepestCone(LaunchScopes(n, l, dirs), p), bit)
  }

  /** The whole policy of a path under a launch, bit by bit. */
  lemma LaunchPolicy(n: Norm, l: Launch, dirs: seq<Frag>, p: NodePath, bit: nat)
    ensures var ss := LaunchScopes(n, l, dirs);
            bit in Effective(ss, p) <==> GrantedAt(n, l, dirs, p, bit)
  {
    hide LaunchScopes, Effective, DeepestCone, PathOf, OptionsGive;
    var ss := LaunchScopes(n, l, dirs);
    LaunchReplaces(n, l, dirs);
    EffectiveBit(ss, p, bit);
    OutputNode(n, l, dirs, p);
    NodeBits(n, l, dirs, p, bit);
    GivenByOptions(n, l, dirs, DeepestCone(ss, p), bit);
  }

  /** The path leads to a path of the options or to an output directory, or is one. */
  ghost predicate LeadsToOption(n: Norm, l: Launch, dirs: seq<Frag>, q: NodePath) {
    || q == [] || q <= PathOf(n, l.workingDir) || q <= PathOf(n, l.tool)
    || (exists p <- l.readOnly :: q <= PathOf(n, p)) || (exists p <- l.writable :: q <= PathOf(n, p))
    || (exists p <- l.blocked :: q <= PathOf(n, p)) || (exists d <- dirs :: q <= PathOf(n, d))
    || (l.overlay.On? && q <= PathOf(n, l.overlay.root))
  }

  lemma ScopedFrom(n: Norm, l: Launch, dirs: seq<Frag>, c: Call, q: NodePath)
    ensures c in CallsOf(l, dirs) && q <= ScopeOf(n, c).path ==> Scoped(LaunchScopes(n, l, dirs), q)
  {
    hide CallsOf, Split, Normalize;
    ScopesFrom(n, CallsOf(l, dirs), ScopeOf(n, c));
  }

  /** The manifest has a node for exactly those paths. */
  lemma LaunchScoped(n: Norm, l: Launch, dirs: seq<Frag>, q: NodePath)
    ensures Scoped(LaunchScopes(n, l, dirs), q) <==> LeadsToOption(n, l, dirs, q)
  {
    hide CallsOf, Split, Normalize;
    var ss, calls := LaunchScopes(n, l, dirs), CallsOf(l, dirs);
    if Scoped(ss, q) && q != [] {
      var s :| s in ss && q <= s.path;
      ScopesFrom(n, calls, s);
      var c :| c in calls && ScopeOf(n, c) == s;
      CallIs(l, dirs, c);
    }
    if LeadsToOption(n, l, dirs, q) && q != [] {
      var c := ConeScope(l.workingDir, {}, l.WorkingDirPolicy());
      if q <= PathOf(n, l.workingDir) {
      } else if q <= PathOf(n, l.tool) {
        c := ConeScope(l.tool, {}, Declared);
      } else if exists p <- l.readOnly :: q <= PathOf(n, p) {
        var p :| p in l.readOnly && q <= PathOf(n, p);
        c := ConeScope(p, {}, Declared);
      } else if exists p <- l.writable :: q <= PathOf(n, p) {
        var p :| p in l.writable && q <= PathOf(n, p);
        c := ConeScope(p, {}, Writable);
      } else if exists p <- l.blocked :: q <= PathOf(n, p) {
        var p :| p in l.blocked && q <= PathOf(n, p);
        c := ConeScope(p, {}, {});
      } else if exists d <- dirs :: q <= PathOf(n, d) {
        var d :| d in dirs && q <= PathOf(n, d);
        c := NodeScope(d, {}, OutputDir);
      } else {
        c := ConeScope(l.overlay.root, {}, AllowAll);
      }
      CallIs(l, dirs, c);
      ScopedFrom(n, l, dirs, c, q);
    }
  }

  /** A path may be read, or probed where there is nothing, exactly if it is an output directory
      or its deepest scoped prefix is the root, the tool, a `-r` or `-w` path, the backing store,
      or the working directory of a launch that is not hermetic. */
  lemma ReadConfinement(n: Norm, l: Launch, dirs: seq<Frag>, p: NodePath)
    ensures var ss := LaunchScopes(n, l, dirs);
            var q := DeepestCone(ss, p);
            && (READ in Effective(ss, p) <==> READ_IF_ABSENT in Effective(ss, p))
            && (READ in Effective(ss, p)
                <==> || (exists d <- dirs :: PathOf(n, d) == p)
                     || q == [] || q == PathOf(n, l.tool)
                     || (exists r <- l.readOnly :: PathOf(n, r) == q) || (exists w <- l.writable :: PathOf(n, w) == q)
                     || (l.overlay.On? && q == PathOf(n, l.overlay.root))
                     || (!l.hermetic && q == PathOf(n, l.workingDir)))
  {
    hide LaunchScopes, Effective, DeepestCone, PathOf;
    LaunchPolicy(n, l, dirs, p, READ);
    LaunchPolicy(n, l, dirs, p, READ_IF_ABSENT);
  }

  // ---- Confinement ----

  /** A path may be written exactly when its deepest scoped prefix is a `-w` path, or it is
      itself an output directory; and with the overlay also where that prefix is the working
      directory or the backing store. */
  lemma WriteConfinement(n: Norm, l: Launch, dirs: seq<Frag>, p: NodePath)
    ensures var ss := LaunchScopes(n, l, dirs);
            WRITE in Effective(ss, p)
            <==> || (exists d <- dirs :: PathOf(n, d) == p)
                 || (exists w <- l.writable :: PathOf(n, w) == DeepestCone(ss, p))
                 || OverlayWrites(n, l, DeepestCone(ss, p))
  {
    hide LaunchScopes, Effective, DeepestCone, PathOf, OverlayWrites;
    var ss := LaunchScopes(n, l, dirs);
    LaunchReplaces(n, l, dirs);
    EffectiveBit(ss, p, WRITE);
    OutputNode(n, l, dirs, p);
    WriteCone(n, l, dirs, DeepestCone(ss, p));
  }

  /** The override bit, which sends writes to the overlay, is on exactly the paths whose
      deepest scoped prefix is the working directory, save the output directories. */
  lemma OverrideConfinement(n: Norm, l: Launch, dirs: seq<Frag>, p: NodePath)
    ensures var ss := LaunchScopes(n, l, dirs);
            OVERRIDE in Effective(ss, p)
            <==> l.overlay.On? && DeepestCone(ss, p) == PathOf(n, l.workingDir) && !exists d <- dirs :: PathOf(n, d) == p
  {
    hide LaunchScopes, Effective, DeepestCone, PathOf;
    var ss := LaunchScopes(n, l, dirs);
    LaunchReplaces(n, l, dirs);
    EffectiveBit(ss, p, OVERRIDE);
    OutputNode(n, l, dirs, p);
    OverrideCone(n, l, dirs, DeepestCone(ss, p));
  }

  lemma SameDeepest(ss: seq<Scope>, p: NodePath, q: NodePath)
    requires q <= p && DeepestCone(ss, p) <= q && HasCone(ss, DeepestCone(ss, p))
    ensures DeepestCone(ss, q) == DeepestCone(ss, p)
  {
    var d, e := DeepestCone(ss, p), DeepestCone(ss, q);
    assert d <= q ==> |d| <= |e|;
    assert e <= p && (|d| < |e| ==> !HasCone(ss, e));
    assert d == p[..|d|] && e == q[..|e|] == p[..|e|];
  }

  /** Above a path of the overlay's cone everything is in the cone too, but for output
      directories and what lies above the working directory: real directories, all of them. */
  lemma ConeReachesUp(n: Norm, l: Launch, dirs: seq<Frag>, p: NodePath, q: NodePath)
    requires q < p && OVERRIDE in Effective(LaunchScopes(n, l, dirs), p) && OVERRIDE !in Effective(LaunchScopes(n, l, dirs), q)
    ensures q < PathOf(n, l.workingDir) || exists d <- dirs :: PathOf(n, d) == q
  {
    hide LaunchScopes, Effective, PathOf;
    var ss, w := LaunchScopes(n, l, dirs), PathOf(n, l.workingDir);
    OverrideConfinement(n, l, dirs, p);
    OverrideConfinement(n, l, dirs, q);
    OverrideCone(n, l, dirs, w);
    assert HasCone(ss, w);
    if w <= q {
      SameDeepest(ss, p, q);
    } else {
      assert q == p[..|q|] && w == p[..|w|];
    }
  }

  /** A path outside the cone that may be written, in a directory inside it, is scoped itself. */
  lemma WritableInCone(n: Norm, l: Launch, dirs: seq<Frag>, p: NodePath)
    requires p != [] && WRITE in Effective(LaunchScopes(n, l, dirs), p) && OVERRIDE !in Effective(LaunchScopes(n, l, dirs), p)
    requires OVERRIDE in Effective(LaunchScopes(n, l, dirs), Parent(p))
    ensures || (exists d <- dirs :: PathOf(n, d) == p) || (exists w <- l.writable :: PathOf(n, w) == p)
            || (l.overlay.On? && p == PathOf(n, l.overlay.root))
  {
    hide LaunchScopes, Effective, PathOf;
    var ss := LaunchScopes(n, l, dirs);
    var q := DeepestCone(ss, p);
    WriteConfinement(n, l, dirs, p);
    OverrideConfinement(n, l, dirs, p);
    OverrideConfinement(n, l, dirs, Parent(p));
    if q != p {
      OverrideCone(n, l, dirs, PathOf(n, l.workingDir));
      assert q <= Parent(p) && Parent(p) <= p;
      ParentDeepest(ss, p);
    }
  }

  lemma ParentDeepest(ss: seq<Scope>, p: NodePath)
    requires p != [] && DeepestCone(ss, p) != p
    ensures DeepestCone(ss, Parent(p)) == DeepestCone(ss, p)
  {}

  // ---- The launch itself ----

  ghost predicate NoNuls(ps: seq<Frag>) {
    forall p <- ps :: NoNul(p)
  }

  function DirsOf(l: Launch, fold: Fold): seq<Frag> {
    OutputDirsOf(l.writable, l.workingDir, fold)
  }

  method AppendCones(calls: seq<Call>, ps: seq<Frag>, values: Bits) returns (r: seq<Call>)
    ensures r == calls + Cones(ps, values)
  {
    r := calls;
    for i := 0 to |ps|
      invariant r == calls + Cones(ps[..i], values)
    {
      r := r + [ConeScope(ps[i], {}, values)];
    }
    assert ps[..|ps|] == ps;
  }

  method AppendNodes(calls: seq<Call>, ps: seq<Frag>, values: Bits) returns (r: seq<Call>)
    ensures r == calls + Nodes(ps, values)
  {
    r := calls;
    for i := 0 to |ps|
      invariant r == calls + Nodes(ps[..i], values)
    {
      r := r + [NodeScope(ps[i], {}, values)];
    }
    assert ps[..|ps|] == ps;
  }

  /** Every scope of a launch, one list of options after the other. */
  method LaunchCalls(l: Launch, fold: Fold) returns (calls: seq<Call>)
    ensures calls == CallsOf(l, DirsOf(l, fold))
  {
    hide Cones, Nodes, OutputDirsOf;
    calls := [RootScope({}, ReadOnly), ConeScope(l.workingDir, {}, l.WorkingDirPolicy()), ConeScope(l.tool, {}, Declared)];
    calls := AppendCones(calls, l.readOnly, Declared);
    calls := AppendCones(calls, l.writable, Writable);
    calls := AppendCones(calls, l.blocked, {});
    var dirs := DeriveOutputDirs(l.writable, l.workingDir, fold);
    calls := AppendNodes(calls, dirs, OutputDir);
    if l.overlay.On? {
      calls := calls + [ConeScope(l.overlay.root, {}, AllowAll)];
    }
  }

  ghost predicate NoNulLaunch(l: Launch) {
    && NoNul(l.workingDir) && NoNul(l.tool) && NoNuls(l.readOnly) && NoNuls(l.writable) && NoNuls(l.blocked)
    && (l.overlay.On? ==> NoNul(l.overlay.root))
  }

  lemma LaunchNoNul(l: Launch, fold: Fold)
    requires NoNulLaunch(l)
    ensures NoNulPaths(CallsOf(l, DirsOf(l, fold)))
  {
    hide CallsOf, OutputDirsOf;
    forall c <- CallsOf(l, DirsOf(l, fold)) | !c.RootScope? ensures NoNul(c.path) {
      CallIs(l, DirsOf(l, fold), c);
      if c.path in DirsOf(l, fold) {
        OutputDirsAre(l.writable, l.workingDir, fold);
        var p :| p in l.writable && Ancestor(c.path, p);
        assert c.path <= p;
      }
    }
  }

  /** What the launcher puts before the tree: reporting for a trace, the input filter, the
      overlay and where it is. The same DLL name serves both architectures. */
  function OptionsOf(l: Launch, filter: bool, trace: Frag, dll: seq<byte>): Options {
    Options(if trace == [] then 0 else 0x8 + 0x10,
            (if filter then 0x400 + 0x800 else 0) + (if l.overlay.On? then 0x1000 else 0),
            trace, dll, dll, if l.overlay.On? then l.overlay.root else [], if l.overlay.On? then l.workingDir else [])
  }

  /** Derive the output directories, add every scope and build the manifest. What the DLL then
      reads before the tree are the options it was launched with; for any path every bit of the
      policy is as the options say, the write bit in particular. */
  method LaunchManifest(n: Norm, l: Launch, fold: Fold, filter: bool, trace: Frag, dll: seq<byte>) returns (payload: seq<byte>)
    requires KeepsNoNul(n) && OptionsOf(l, filter, trace, dll).Fits() && NoNulLaunch(l) && NoNul(trace) && 0 !in dll
    requires NodeLen(TreeFor(n, LaunchScopes(n, l, DirsOf(l, fold)))) < 0x1_0000_0000
    ensures |payload| >= 8 && var r := ParsePrelude(payload);
            && r.flags == (if trace == [] then 0 else 0x18)
            && r.extraFlags == (if filter then 0xC00 else 0) + (if l.overlay.On? then 0x1000 else 0)
            && r.report == trace && r.dllX86 == dll && r.dllX64 == dll
            && (l.overlay.On? ==> r.overlayRoot == l.overlay.root && r.sourceRoot == l.workingDir)
            && (l.overlay.Off? ==> r.overlayRoot == [] && r.sourceRoot == [])
    ensures forall path: Frag :: NoNul(path) ==>
              ReadPolicy(n, payload, TreeStart(payload), path) == Expected(n, CallsOf(l, DirsOf(l, fold)), path)
    ensures forall path: Frag :: NoNul(path) ==>
              (ReadPolicy(n, payload, TreeStart(payload), path).Policy?
               && (WRITE in BitsOf(ReadPolicy(n, payload, TreeStart(payload), path).word) <==> MayWrite(n, l, fold, PathOfTokens(n, path)))
               && forall bit: nat :: bit in BitsOf(ReadPolicy(n, payload, TreeStart(payload), path).word)
                                     <==> Granted(n, l, fold, PathOfTokens(n, path), bit))
  {
    hide *;
    LaunchNoNul(l, fold);
    LaunchScopesAre(n, l, fold);
    OptionsWhole(l, filter, trace, dll);
    var calls := LaunchCalls(l, fold);
    payload := BuildManifest(n, OptionsOf(l, filter, trace, dll), calls);
    forall path: Frag | NoNul(path)
      ensures Expected(n, calls, path).Policy?
      ensures WRITE in BitsOf(Expected(n, calls, path).word) <==> MayWrite(n, l, fold, PathOfTokens(n, path))
      ensures forall bit: nat :: bit in BitsOf(Expected(n, calls, path).word) <==> Granted(n, l, fold, PathOfTokens(n, path), bit)
    {
      ExpectedWrite(n, l, fold, path);
      forall bit: nat ensures bit in BitsOf(Expected(n, calls, path).word) <==> Granted(n, l, fold, PathOfTokens(n, path), bit) {
        ExpectedBit(n, l, fold, path, bit);
      }
    }
  }

  lemma OptionsWhole(l: Launch, filter: bool, trace: Frag, dll: seq<byte>)
    requires NoNulLaunch(l) && NoNul(trace) && 0 !in dll
    ensures var r := UpToNuls(OptionsOf(l, filter, trace, dll));
            && r.flags == (if trace == [] then 0 else 0x18)
            && r.extraFlags == (if filter then 0xC00 else 0) + (if l.overlay.On? then 0x1000 else 0)
            && r.report == trace && r.dllX86 == dll && r.dllX64 == dll
            && (l.overlay.On? ==> r.overlayRoot == l.overlay.root && r.sourceRoot == l.workingDir)
            && (l.overlay.Off? ==> r.overlayRoot == [] && r.sourceRoot == [])
  {
    var o := OptionsOf(l, filter, trace, dll);
    WideWhole(o.report);
    AnsiWhole(dll);
    WideWhole(o.overlayRoot);
    WideWhole(o.sourceRoot);
  }

  /** The bit as the options say: by the output directory, or by the deepest scoped prefix. */
  ghost predicate Granted(n: Norm, l: Launch, fold: Fold, p: NodePath, bit: nat) {
    if exists d :: IsOutputDir(d, l.writable, l.workingDir, fold) && PathOf(n, d) == p then bit in {0, 1, 2, 3, 13}
    else OptionsGive(n, l, DeepestCone(LaunchScopes(n, l, DirsOf(l, fold)), p), bit)
  }

  lemma ExpectedBit(n: Norm, l: Launch, fold: Fold, path: Frag, bit: nat)
    ensures bit in BitsOf(Expected(n, CallsOf(l, DirsOf(l, fold)), path).word) <==> Granted(n, l, fold, PathOfTokens(n, path), bit)
  {
    hide CallsOf, OutputDirsOf, Effective, Scoped, ScopesOf, DeepestCone, Split, Normalize, Tokens, WordOf, BitsOf, OptionsGive;
    LaunchPolicy(n, l, DirsOf(l, fold), PathOfTokens(n, path), bit);
    OutputDirsAre(l.writable, l.workingDir, fold);
  }

  function PathOfTokens(n: Norm, path: Frag): NodePath {
    Normalize(n, Tokens(path))
  }

  /** Under a `-w` path with nothing scoped in between, an output directory itself, or the
      overlay's to write. */
  ghost predicate MayWrite(n: Norm, l: Launch, fold: Fold, p: NodePath) {
    || (exists d :: IsOutputDir(d, l.writable, l.workingDir, fold) && PathOf(n, d) == p)
    || (exists w <- l.writable :: PathOf(n, w) == DeepestCone(LaunchScopes(n, l, DirsOf(l, fold)), p))
    || OverlayWrites(n, l, DeepestCone(LaunchScopes(n, l, DirsOf(l, fold)), p))
  }

  lemma LaunchScopesAre(n: Norm, l: Launch, fold: Fold)
    ensures LaunchScopes(n, l, DirsOf(l, fold)) == ScopesOf(n, CallsOf(l, DirsOf(l, fold)))
  {}

  lemma ExpectedWrite(n: Norm, l: Launch, fold: Fold, path: Frag)
    ensures var answer := Expected(n, CallsOf(l, DirsOf(l, fold)), path);
            answer.Policy? && (WRITE in BitsOf(answer.word) <==> MayWrite(n, l, fold, PathOfTokens(n, path)))
  {
    hide CallsOf, OutputDirsOf, Effective, Scoped, ScopesOf, DeepestCone, Split, Normalize, Tokens, WordOf, BitsOf;
    WriteConfinement(n, l, DirsOf(l, fold), PathOfTokens(n, path));
    OutputDirsAre(l.writable, l.workingDir, fold);
  }
}
