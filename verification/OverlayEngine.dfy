/** The write overlay: which of the two layers an operation on a path is sent to, and what
    happens to both. */
module OverlayEngine {
  import opened Optional
  import opened Words
  import opened FileLayer

  /** The static policy of one path. `redirect` is the override bit of the write-overlay cone. */
  datatype Policy = Policy(read: bool, readIfAbsent: bool, write: bool, createDirectory: bool, exact: bool, redirect: bool)

  /** `filter` is `--filter-inputs`; the overlay itself is on. */
  datatype Config = Config(filter: bool, policy: Path -> Policy)
  {
    /** A real file the input filter hides: neither readable nor an exact manifest node. */
    predicate Hidden(p: Path) {
      filter && !(policy(p).read || policy(p).exact)
    }

    /** How a denied read is reported. */
    function DeniedRead(): Outcome {
      if filter then NotFound else Denied
    }
  }

  datatype Store = Store(disk: Layer, backing: Layer)

  datatype Target = Real | Backing

  datatype DeleteAction = PassThrough | RedirectToBacking | DenyAccess | ReportNotFound

  /** Copy the real file at `p` up, unless it cannot be placed. */
  function CopyUp(backing: Layer, p: Path, e: Entry): Layer {
    if HasParent(backing, p) && p !in backing then backing[p := e] else backing
  }

  /** Where an open goes, and the backing store prepared for it. */
  function ResolveOpen(c: Config, s: Store, p: Path, disposition: Disposition, write: bool): (Target, Layer) {
    if !c.policy(p).redirect then (Real, s.backing)
    else if IsDir(s.disk, p) then (Real, s.backing)
    else if IsDir(s.backing, p) then (Backing, s.backing)
    else if write then
      if disposition.CreateNew? && p !in s.backing && p in s.disk && !c.Hidden(p) then (Real, s.backing)
      else
        var made := EnsureParents(s.backing, p);
        (Backing, if p !in s.backing && disposition.Keeps() && p in s.disk then CopyUp(made, p, s.disk[p]) else made)
    else if p in s.backing then (Backing, s.backing)
    else if p != [] && Parent(p) !in s.disk && IsDir(s.backing, Parent(p)) then (Backing, s.backing)
    else (Real, s.backing)
  }

  function ResolveDelete(c: Config, s: Store, p: Path): DeleteAction {
    if !c.policy(p).redirect then PassThrough
    else if p in s.backing then
      if p in s.disk && !c.Hidden(p) then DenyAccess else RedirectToBacking
    else if p in s.disk then
      if c.Hidden(p) then ReportNotFound else DenyAccess
    else PassThrough
  }

  /** Where the destination of a rename goes: no look at what is there. */
  function ResolveRenameDest(c: Config, s: Store, q: Path): (Target, Layer) {
    if c.policy(q).redirect then (Backing, EnsureParents(s.backing, q)) else (Real, s.backing)
  }

  function ResolveProbe(c: Config, s: Store, p: Path): Target {
    if c.policy(p).redirect && p in s.backing then Backing else Real
  }

  // ---- One intercepted call ----

  datatype Call =
    | Open(path: Path, disposition: Disposition, write: bool, edit: Content -> Content)
    | Delete(path: Path)
    | Rename(path: Path, dest: Path, replace: bool)

  function On(s: Store, t: Target): Layer {
    if t.Real? then s.disk else s.backing
  }

  function With(s: Store, t: Target, l: Layer): Store {
    if t.Real? then s.(disk := l) else s.(backing := l)
  }

  /** The read check made once the open has shown whether the path exists. */
  function CheckRead(c: Config, s: Store, p: Path, o: Outcome): Outcome {
    var allowed :=
      if o.OpenedDir? then true
      else if o.Absent() then c.policy(p).readIfAbsent
      else c.policy(p).read || (c.policy(p).redirect && p in s.backing);
    if allowed then o else c.DeniedRead()
  }

  function DoOpen(c: Config, s: Store, p: Path, disposition: Disposition, write: bool, edit: Content -> Content): (Outcome, Store) {
    if write && !c.policy(p).write then (Denied, s)
    else
      var (t, made) := ResolveOpen(c, s, p, disposition, write);
      var s1 := s.(backing := made);
      if write then
        var (o, l) := OsWrite(On(s1, t), p, disposition, edit);
        (o, With(s1, t, l))
      else
        var (o, l) := OsOpen(On(s1, t), p, disposition, false);
        var s2 := With(s1, t, l);
        (CheckRead(c, s2, p, o), s2)
  }

  function DoDelete(c: Config, s: Store, p: Path): (Outcome, Store) {
    if !c.policy(p).write then (Denied, s)
    else
      match ResolveDelete(c, s, p)
      case DenyAccess => (Denied, s)
      case ReportNotFound => (NotFound, s)
      case PassThrough => var (o, l) := OsDelete(s.disk, p); (o, s.(disk := l))
      case RedirectToBacking => var (o, l) := OsDelete(s.backing, p); (o, s.(backing := l))
  }

  /** The move itself, once both ends are resolved. */
  function Move(s: Store, t: Target, p: Path, u: Target, q: Path, replace: bool): (Outcome, Store) {
    if t == u then
      var (o, l) := OsMove(On(s, t), p, q, replace);
      (o, With(s, t, l))
    else
      var l := On(s, t);
      if !HasParent(l, p) then (PathNotFound, s)
      else if p !in l then (NotFound, s)
      else if l[p].File? then
        var o := OsMoveTo(On(s, u), q, replace, false);
        (o, if o.Done? then With(With(s, t, l - {p}), u, On(s, u)[q := l[p]]) else s)
      else
        var o := OsMoveDirTo(On(s, u), q, replace, false, false);
        (o, if o.Done? then With(With(s, t, Without(l, p)), u, On(s, u) + Shifted(l, p, q)) else s)
  }

  /** Whether all that a real directory takes along may be removed from where it is and made
      where it goes. */
  predicate TreeWritable(c: Config, l: Layer, p: Path, q: Path) {
    forall r <- l :: p < r ==>
      && c.policy(r).write
      && if l[r].Dir? then c.policy(q + r[|p|..]).createDirectory else c.policy(q + r[|p|..]).write
  }

  /** A real directory is moved on the real disk, neither end redirected. */
  function DoRename(c: Config, s: Store, p: Path, q: Path, replace: bool): (Outcome, Store) {
    if !c.policy(p).write || !c.policy(q).write then (Denied, s)
    else if IsDir(s.disk, p) then
      if !TreeWritable(c, s.disk, p, q) then (Denied, s)
      else
        var (o, l) := OsMove(s.disk, p, q, replace);
        (o, s.(disk := l))
    else
      var action := ResolveDelete(c, s, p);
      if action.DenyAccess? then (Denied, s)
      else if action.ReportNotFound? then (NotFound, s)
      else
        var (u, made) := ResolveRenameDest(c, s, q);
        Move(s.(backing := made), if action.PassThrough? then Real else Backing, p, u, q, replace)
  }

  function Step(c: Config, s: Store, call: Call): (Outcome, Store) {
    match call
    case Open(p, disposition, write, edit) => DoOpen(c, s, p, disposition, write, edit)
    case Delete(p) => DoDelete(c, s, p)
    case Rename(p, q, replace) => DoRename(c, s, p, q, replace)
  }

  /** The state after a sequence of calls. */
  function Run(c: Config, s: Store, calls: seq<Call>): Store {
    if calls == [] then s else Step(c, Run(c, s, calls[..|calls| - 1]), calls[|calls| - 1]).1
  }
}
