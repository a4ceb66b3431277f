/** Concrete calls on one small store that no one-layer file system allows. */
module OverlayDivergence {
  import opened Optional
  import opened Words
  import opened FileLayer
  import opened OverlayEngine
  import opened OverlayView
  import opened OverlayFrame
  import opened OverlayRefinement

  const A: Path := [[97]]
  const B: Path := [[98]]
  const E: Path := [[101]]
  const F: Path := [[102]]
  const G: Path := [[103]]
  const K: Path := [[107]]
  const AX: Path := [[97], [120]]
  const GO: Path := [[103], [111]]

  /** Only A is readable; all but GO and what is below it is in the overlay's cone. */
  const SampleConfig := Config(true, (p: Path) => Policy(p == A, true, true, true, false, !(GO <= p)))

  /** A, B and the directory E are real; F and the directories G and K are the overlay's. */
  const SampleStore := Store(map[[] := Dir, A := File([1]), B := File([2]), E := Dir],
                             map[[] := Dir, F := File([3]), G := Dir, K := Dir])

  lemma SampleCoherent()
    ensures Coherent(SampleConfig, SampleStore)
  {
    assert Parent(A) == Parent(B) == Parent(E) == Parent(F) == Parent(G) == Parent(K) == [];
    forall p: Path, q: Path {:trigger SampleConfig.policy(p), SampleConfig.policy(q)} | q < p && GO <= q ensures GO <= p {}
  }

  /** Every way in which a write can depart from a one-layer file system occurs: truncating a
      visible file not captured yet, opening a hidden one, and making a directory over a
      visible file or a declared output in a directory of the overlay. */
  lemma WriteDivergencesExist(edit: Content -> Content)
    ensures var s := SampleStore;
            && Covered(SampleConfig, s, AX) && Orphan(SampleConfig, s, GO)
            && forall call <- [Open(A, TruncateExisting, true, edit), Open(B, OpenExisting, true, edit), Open(B, OpenAlways, true, edit),
                               Open(AX, CreateNew, true, edit), Open(GO, CreateNew, true, edit)] :: Departs(call)
  {
    var s := SampleStore;
    assert AX[..1] == A && Parent(GO) == G;
    FilesAt(SampleConfig, s, G);
    forall call | call in [Open(A, TruncateExisting, true, edit), Open(B, OpenExisting, true, edit), Open(B, OpenAlways, true, edit),
                           Open(AX, CreateNew, true, edit), Open(GO, CreateNew, true, edit)]
      ensures InScope(SampleConfig, s, call) && Diverges(SampleConfig, s, call)
    {}
    forall call | InScope(SampleConfig, s, call) && Diverges(SampleConfig, s, call) ensures Departs(call) {
      SampleDeparts(call);
    }
  }

  /** So do a delete and each way of a rename: of a hidden real directory, onto a real
      directory, over a visible file without replacing, under one, and to a declared output in
      a directory of the overlay. */
  lemma RemovalDivergencesExist()
    ensures forall call <- [Delete(E), Rename(F, E, true), Rename(F, A, false), Rename(F, AX, true), Rename(F, GO, true)] :: Departs(call)
  {
    var s := SampleStore;
    assert AX[..1] == A && Parent(GO) == G && Covered(SampleConfig, s, AX);
    FilesAt(SampleConfig, s, G);
    FilesAt(SampleConfig, s, F);
    forall call | call in [Delete(E), Rename(F, E, true), Rename(F, A, false), Rename(F, AX, true), Rename(F, GO, true)]
      ensures InScope(SampleConfig, s, call) && Diverges(SampleConfig, s, call)
    {}
    forall call | InScope(SampleConfig, s, call) && Diverges(SampleConfig, s, call) ensures Departs(call) {
      SampleDeparts(call);
    }
  }

  /** And the rename of a directory of the overlay over a visible file. */
  lemma TreeDivergenceExists()
    ensures Departs(Rename(K, A, true))
  {
    FilesAt(SampleConfig, SampleStore, K);
    assert InCone(SampleConfig, K) && InCone(SampleConfig, A);
    SampleDeparts(Rename(K, A, true));
  }

  /** The one-layer file system does not allow what the call does on the sample store. */
  ghost predicate Departs(call: Call) {
    var c, s := SampleConfig, SampleStore;
    var (o, t) := Step(c, s, call);
    InScope(c, s, call) && !Allowed(c, Locked(c, s), ViewOf(c, s), call, o, ViewOf(c, t))
  }

  lemma SampleDeparts(call: Call)
    requires InScope(SampleConfig, SampleStore, call) && Diverges(SampleConfig, SampleStore, call)
    ensures Departs(call)
  {
    hide *;
    SampleCoherent();
    StepRefines(SampleConfig, SampleStore, call);
    DepartsIs(call);
  }

  lemma DepartsIs(call: Call)
    requires var c, s := SampleConfig, SampleStore;
             var (o, t) := Step(c, s, call);
             InScope(c, s, call) && !Allowed(c, Locked(c, s), ViewOf(c, s), call, o, ViewOf(c, t))
    ensures Departs(call)
  {
    hide Step, Allowed, InScope, Locked, ViewOf;
  }

  // ---- Moving a real directory ----

  const EX: Path := [[101], [120]]
  const HX: Path := [[104], [120]]
  const H: Path := [[104]]

  const MoveConfig := Config(true, (p: Path) => Policy(true, true, true, true, false, true))
  const MoveStore := Store(map[[] := Dir, E := Dir, EX := File([1])], map[[] := Dir])

  /** Renaming a real directory of the overlay's cone succeeds on the real disk: the file below
      it leaves its path, and appears below the new one. */
  lemma DirectoryMoveReachesDisk()
    ensures var (o, t) := Step(MoveConfig, MoveStore, Rename(E, H, false));
            && o == Done && Coherent(MoveConfig, MoveStore)
            && At(MoveStore.disk, EX) == Some(File([1])) && At(t.disk, EX) == None
            && HX !in Files(MoveConfig, MoveStore) && At(t.disk, HX) == Some(File([1])) && HX in Files(MoveConfig, t)
  {
    hide Files, Step;
    var s := MoveStore;
    DirectoryMoveStep();
    var t := Step(MoveConfig, s, Rename(E, H, false)).1;
    assert EX[|E|..] == [[120]] && HX[|H|..] == [[120]] && E + [[120]] == EX && H + [[120]] == HX;
    assert At(Without(s.disk, E), EX) == None && At(Shifted(s.disk, E, H), EX) == None;
    assert At(Shifted(s.disk, E, H), HX) == At(s.disk, EX);
    FilesAt(MoveConfig, s, HX);
    FilesAt(MoveConfig, t, HX);
  }

  lemma DirectoryMoveStep()
    ensures Coherent(MoveConfig, MoveStore)
    ensures Step(MoveConfig, MoveStore, Rename(E, H, false))
            == (Done, MoveStore.(disk := Without(MoveStore.disk, E) + Shifted(MoveStore.disk, E, H)))
  {
    hide Without, Shifted;
    assert Parent(E) == Parent(H) == [] && Parent(EX) == E;
  }

  // ---- Creating without write access ----

  /** A read-intent open that always creates goes to the real disk: it empties a hidden real file
      of the cone and reports that there is none. */
  lemma ReadIntentReachesDisk(edit: Content -> Content)
    ensures var (o, t) := Step(SampleConfig, SampleStore, Open(B, CreateAlways, false, edit));
            && Coherent(SampleConfig, SampleStore) && SampleConfig.policy(B).redirect
            && At(SampleStore.disk, B) == Some(File([2])) && o == NotFound && At(t.disk, B) == Some(File([]))
  {
    SampleCoherent();
    assert Parent(B) == [];
  }
}
