/** The intercepted calls as they are carried out: the backing store is made ready in place,
    then the operation runs on the layer it was sent to. */
module OverlayHooks {
  import opened Optional
  import opened Words
  import opened FileLayer
  import opened OverlayEngine
  import opened OverlayView
  import opened OverlayFrame
  import opened OverlayRefinement

  // ---- What a caller may rely on ----

  /** The call did what the one-layer file system allows, unless the engine diverges here; then
      the layers stay coherent and the same real files locked. */
  ghost predicate AsOneLayer(c: Config, s: Store, call: Call, o: Outcome, t: Store) {
    Coherent(c, s) && InScope(c, s, call) ==>
      && (Allowed(c, Locked(c, s), ViewOf(c, s), call, o, ViewOf(c, t)) <==> !Diverges(c, s, call))
      && (!Diverges(c, s, call) ==> Coherent(c, t) && Locked(c, t) == Locked(c, s))
  }

  /** The real files of the cone that the call changed are exactly those of the two ways that
      reach the real disk; both layers stay trees. */
  ghost predicate RealLayerKept(c: Config, s: Store, call: Call, t: Store) {
    Trees(s) ==>
      && Trees(t)
      && forall r {:trigger At(t.disk, r)} :: c.policy(r).redirect ==>
           (At(t.disk, r) == At(s.disk, r) <==> !ReadIntentChanges(c, s, call, r) && !DirectoryMoveChanges(c, s, call, r))
  }

  lemma StepSound(c: Config, s: Store, call: Call)
    ensures var (o, t) := Step(c, s, call);
            AsOneLayer(c, s, call, o, t) && RealLayerKept(c, s, call, t)
  {
    hide Step, Allowed, Diverges, InScope, Coherent, ReadIntentChanges, DirectoryMoveChanges, Trees;
    var (o, t) := Step(c, s, call);
    if Coherent(c, s) && InScope(c, s, call) {
      StepRefines(c, s, call);
    }
    if Trees(s) {
      StepTrees(c, s, call);
      DiskIsTree(s);
      forall r | c.policy(r).redirect
        ensures At(t.disk, r) == At(s.disk, r) <==> !ReadIntentChanges(c, s, call, r) && !DirectoryMoveChanges(c, s, call, r) {
        RealLayerStep(c, s, call, r);
      }
    }
  }

  lemma DiskIsTree(s: Store)
    requires Trees(s)
    ensures Closed(s.disk)
  {}

  /** Making the backing store ready for a path loses nothing that is in it, and adds only
      directories above the path and a copy of the real file at it whose content is kept. */
  ghost predicate PreparedAt(s: Store, made: Layer, p: Path, d: Disposition, write: bool, r: Path) {
    || At(made, r) == At(s.backing, r)
    || (r !in s.backing && r < p && At(made, r) == Some(Dir))
    || (r == p && p !in s.backing && p in s.disk && write && d.Keeps() && At(made, p) == At(s.disk, p))
  }

  lemma {:induction false} MakesDirectories(l: Layer, p: Path, k: nat, r: Path)
    requires k <= |p|
    ensures At(MakeDirs(l, p, k), r) == At(l, r) || (r !in l && r <= p && |r| <= k && At(MakeDirs(l, p, k), r) == Some(Dir))
  {
    if k > 0 {
      MakesDirectories(l, p, k - 1, r);
    }
  }

  lemma EnsuringMakesDirectories(l: Layer, p: Path, r: Path)
    ensures At(EnsureParents(l, p), r) == At(l, r) || (r !in l && r < p && At(EnsureParents(l, p), r) == Some(Dir))
  {
    if p != [] { MakesDirectories(l, p, |p| - 1, r); }
  }

  lemma OpenPrepares(c: Config, s: Store, p: Path, d: Disposition, write: bool, r: Path)
    ensures PreparedAt(s, ResolveOpen(c, s, p, d, write).1, p, d, write, r)
  {
    hide EnsureParents, HasParent;
    EnsuringMakesDirectories(s.backing, p, r);
  }

  lemma DestPrepares(c: Config, s: Store, q: Path, r: Path)
    ensures PreparedAt(s, ResolveRenameDest(c, s, q).1, q, CreateNew, true, r)
  {
    hide EnsureParents;
    EnsuringMakesDirectories(s.backing, q, r);
  }

  // ---- The calls ----

  /** One action's overlay: the backing store is made ready in place. */
  class Overlay {
    const config: Config
    var disk: Layer
    var backing: Layer

    function Now(): Store
      reads this
    {
      Store(disk, backing)
    }

    constructor (config: Config, disk: Layer)
      ensures this.config == config && Now() == Store(disk, map[[] := Dir])
    {
      this.config, this.disk, this.backing := config, disk, map[[] := Dir];
    }

    /** Create the ancestors of a backing path, one prefix after the other. */
    method EnsureBackingParentDirs(p: Path)
      modifies this`backing
      ensures backing == EnsureParents(old(backing), p)
    {
      var i := 1;
      while i < |p|
        invariant 1 <= i && (p != [] ==> i <= |p|)
        invariant backing == if p == [] then old(backing) else MakeDirs(old(backing), p, i - 1)
      {
        var dir := p[..i];
        backing := MakeDir(backing, dir);
        i := i + 1;
      }
    }

    method ResolveOverlayOpenPath(p: Path, disposition: Disposition, write: bool) returns (t: Target)
      modifies this`backing
      ensures (t, backing) == ResolveOpen(config, old(Now()), p, disposition, write)
      ensures t.Backing? ==> config.policy(p).redirect
      ensures t.Real? ==> backing == old(backing)
      ensures forall r :: PreparedAt(old(Now()), backing, p, disposition, write, r)
    {
      ghost var s := Now();
      forall r ensures PreparedAt(s, ResolveOpen(config, s, p, disposition, write).1, p, disposition, write, r) {
        OpenPrepares(config, s, p, disposition, write, r);
      }
      if !config.policy(p).redirect || IsDir(disk, p) {
        return Real;
      }
      if IsDir(backing, p) {
        return Backing;
      }
      var backingExists := p in backing;
      if write {
        if disposition.CreateNew? && !backingExists {
          if p in disk && !config.Hidden(p) {
            return Real;
          }
        }
        EnsureBackingParentDirs(p);
        if !backingExists && !disposition.CreateAlways? && !disposition.TruncateExisting? && !disposition.CreateNew? {
          if p in disk {
            backing := CopyUp(backing, p, disk[p]);
          }
        }
        return Backing;
      }
      if backingExists {
        return Backing;
      }
      if p != [] && Parent(p) !in disk && IsDir(backing, Parent(p)) {
        return Backing;
      }
      t := Real;
    }

    method ResolveOverlayRenameDest(q: Path) returns (t: Target)
      modifies this`backing
      ensures (t, backing) == ResolveRenameDest(config, old(Now()), q)
      ensures t.Backing? <==> config.policy(q).redirect
      ensures forall r :: PreparedAt(old(Now()), backing, q, CreateNew, true, r)
    {
      ghost var s := Now();
      forall r ensures PreparedAt(s, ResolveRenameDest(config, s, q).1, q, CreateNew, true, r) {
        DestPrepares(config, s, q, r);
      }
      if !config.policy(q).redirect {
        return Real;
      }
      EnsureBackingParentDirs(q);
      t := Backing;
    }

    method DetouredOpen(p: Path, disposition: Disposition, write: bool, edit: Content -> Content) returns (o: Outcome)
      modifies this
      ensures (o, Now()) == Step(config, old(Now()), Open(p, disposition, write, edit))
      ensures AsOneLayer(config, old(Now()), Open(p, disposition, write, edit), o, Now())
      ensures RealLayerKept(config, old(Now()), Open(p, disposition, write, edit), Now())
    {
      StepSound(config, Now(), Open(p, disposition, write, edit));
      if write && !config.policy(p).write {
        return Denied;
      }
      var t := ResolveOverlayOpenPath(p, disposition, write);
      var r := if write then OsWrite(On(Now(), t), p, disposition, edit) else OsOpen(On(Now(), t), p, disposition, false);
      if t.Real? { disk := r.1; } else { backing := r.1; }
      o := if write then r.0 else CheckRead(config, Now(), p, r.0);
    }

    method DetouredDelete(p: Path) returns (o: Outcome)
      modifies this
      ensures (o, Now()) == Step(config, old(Now()), Delete(p))
      ensures AsOneLayer(config, old(Now()), Delete(p), o, Now())
      ensures RealLayerKept(config, old(Now()), Delete(p), Now())
    {
      StepSound(config, Now(), Delete(p));
      if !config.policy(p).write {
        return Denied;
      }
      match ResolveDelete(config, Now(), p)
      case DenyAccess => o := Denied;
      case ReportNotFound => o := NotFound;
      case PassThrough => var r := OsDelete(disk, p); o, disk := r.0, r.1;
      case RedirectToBacking => var r := OsDelete(backing, p); o, backing := r.0, r.1;
    }

    method DetouredRename(p: Path, q: Path, replace: bool) returns (o: Outcome)
      modifies this
      ensures (o, Now()) == Step(config, old(Now()), Rename(p, q, replace))
      ensures AsOneLayer(config, old(Now()), Rename(p, q, replace), o, Now())
      ensures RealLayerKept(config, old(Now()), Rename(p, q, replace), Now())
    {
      StepSound(config, Now(), Rename(p, q, replace));
      if !config.policy(p).write || !config.policy(q).write {
        return Denied;
      }
      if IsDir(disk, p) {
        if !TreeWritable(config, disk, p, q) {
          return Denied;
        }
        var r := OsMove(disk, p, q, replace);
        o, disk := r.0, r.1;
        return;
      }
      var source := Real;
      match ResolveDelete(config, Now(), p) {
        case DenyAccess => return Denied;
        case ReportNotFound => return NotFound;
        case PassThrough =>
        case RedirectToBacking => source := Backing;
      }
      var u := ResolveOverlayRenameDest(q);
      var r := Move(Now(), source, p, u, q, replace);
      o, disk, backing := r.0, r.1.disk, r.1.backing;
    }
  }
}
