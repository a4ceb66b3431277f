/** The derived output directories, as nodes of the policy tree: the parent of each writable
    path is one of them, unless it is the working directory or not below it. */
module LaunchPaths {
  import opened Words
  import opened ManifestFormat
  import opened ManifestReader
  import opened ManifestBuilder
  import opened ManifestAgreement
  import opened Scopes
  import opened OutputDirs
  import opened Launcher
  import ManifestCursor

  const SEPARATOR: WChar := 92

  /** A path as the launcher makes it absolute: backslashes only, none doubled or at an end. */
  predicate Absolute(path: Frag) {
    path != [] && Plain(path) && !IsSep(path[|path| - 1]) && forall i :: 0 <= i < |path| && IsSep(path[i]) ==> path[i] == SEPARATOR
  }

  /** The same, or the root of a drive with its separator. */
  predicate AbsoluteDir(path: Frag) {
    Absolute(path) || (path != [] && path[|path| - 1] == SEPARATOR && Absolute(path[..|path| - 1]))
  }

  /** Letters that the policy tree takes for the same compare as the same. */
  ghost predicate FoldsAlike(n: Norm, fold: Fold) {
    forall x: WChar, y: WChar :: n.up(x) == n.up(y) ==> fold(x) == fold(y)
  }

  lemma {:induction false} SkipShort(a: Frag, t: Frag, i: nat, sep: bool)
    requires i <= |a|
    ensures var e := SkipWhile(a, i, sep);
            SkipWhile(a + t, i, sep) == if e < |a| then e else SkipWhile(a + t, |a|, sep)
    decreases |a| - i
  {
    if i < |a| {
      assert (a + t)[i] == a[i];
      if IsSep(a[i]) == sep { SkipShort(a, t, i + 1, sep); }
    }
  }

  lemma {:induction false} SkipName(a: Frag, b: Frag, i: nat)
    requires i <= |b| && !HasSep(b)
    ensures SkipWhile(a + b, |a| + i, false) == |a + b|
    decreases |b| - i
  {
    if i < |b| {
      assert (a + b)[|a| + i] == b[i];
      SkipName(a, b, i + 1);
    }
  }

  /** The last name of a path comes last among its names. */
  lemma {:induction false} SplitJoin(a: Frag, b: Frag, i: nat)
    requires i <= |a| && b != [] && !HasSep(b)
    ensures Split(a + [SEPARATOR] + b, i) == Split(a, i) + [b]
    decreases |a| - i
  {
    var w := a + [SEPARATOR] + b;
    assert w == a + ([SEPARATOR] + b);
    var start := SkipWhile(a, i, true);
    SkipShort(a, [SEPARATOR] + b, i, true);
    if start < |a| {
      var end := SkipWhile(a, start, false);
      SkipShort(a, [SEPARATOR] + b, start, false);
      TokenEndIsNameEnd(a, start);
      assert SkipWhile(w, |a|, false) == |a|;
      assert w[start..end] == a[start..end];
      SkipStops(a, i);
      SplitJoin(a, b, end);
      assert [a[start..end]] + (Split(a, end) + [b]) == [a[start..end]] + Split(a, end) + [b];
    } else {
      LastName(a, b);
      assert Split(a, i) == [] by { assert SkipWhile(a, |a|, false) == |a|; }
    }
  }

  lemma LastName(a: Frag, b: Frag)
    requires b != [] && !HasSep(b)
    ensures var w := a + [SEPARATOR] + b;
            && SkipWhile(w, |a|, true) == |a| + 1 && SkipWhile(w, |a| + 1, false) == |w|
            && w[|a| + 1..|w|] == b && Split(w, |w|) == []
  {
    var w := a + [SEPARATOR] + b;
    assert w[|a|] == SEPARATOR && w[|a| + 1] == b[0] && !IsSep(b[0]);
    assert SkipWhile(w, |a| + 1, true) == |a| + 1;
    SkipName(a + [SEPARATOR], b, 0);
    SplitAtEnd(w);
  }

  lemma {:induction false} SkipStops(path: Frag, i: nat)
    requires i <= |path|
    ensures var e := SkipWhile(path, i, true); e < |path| ==> !IsSep(path[e]) && SkipWhile(path, e, false) > e
    decreases |path| - i
  {
    if i < |path| && IsSep(path[i]) { SkipStops(path, i + 1); }
  }

  lemma SplitAtEnd(w: Frag)
    ensures Split(w, |w|) == []
  {}

  // ---- The parent of a writable path ----

  lemma AfterParent(w: Frag)
    requires Ancestor(ParentDir(w), w)
    ensures var a := ParentDir(w); !HasSep(w[|a| + 1..]) && w == a + [w[|a|]] + w[|a| + 1..]
  {
    hide ParentDir;
    var a := ParentDir(w);
    var b := w[|a| + 1..];
    ParentIs(w);
    forall i | 0 <= i < |b| ensures !IsSep(b[i]) {
      var d := w[..|a| + 1 + i];
      assert Ancestor(d, w) <==> IsSep(b[i]);
    }
    assert a == w[..|a|];
  }

  /** Cutting a path at its last separator drops its last name. */
  lemma ParentPath(n: Norm, w: Frag)
    requires Absolute(w) && Ancestor(ParentDir(w), w)
    ensures PathOf(n, w) != [] && PathOf(n, ParentDir(w)) == Parent(PathOf(n, w))
  {
    hide ParentDir, Split;
    var a := ParentDir(w);
    var b := w[|a| + 1..];
    AfterParent(w);
    assert w[|a|] == SEPARATOR;
    SplitJoin(a, b, 0);
  }

  lemma OneName(w: Frag)
    requires w != [] && !HasSep(w)
    ensures Split(w, 0) == [w]
  {
    SkipName([], w, 0);
    assert [] + w == w && !IsSep(w[0]) && SkipWhile(w, 0, true) == 0;
    SplitAtEnd(w);
    assert w[0..|w|] == w;
  }

  lemma {:induction false} SplitTrailing(a: Frag, i: nat)
    requires i <= |a|
    ensures Split(a + [SEPARATOR], i) == Split(a, i)
    decreases |a| - i
  {
    var w := a + [SEPARATOR];
    var start := SkipWhile(a, i, true);
    SkipShort(a, [SEPARATOR], i, true);
    if start < |a| {
      var end := SkipWhile(a, start, false);
      SkipShort(a, [SEPARATOR], start, false);
      TokenEndIsNameEnd(a, start);
      assert SkipWhile(w, |a|, false) == |a| && w[start..end] == a[start..end];
      SkipStops(a, i);
      SplitTrailing(a, end);
    } else {
      assert SkipWhile(w, |a|, true) == |w| && SkipWhile(a, |a|, false) == |a|;
    }
  }

  /** As long as the names agree, so do the letters. */
  lemma {:induction false} SameText(n: Norm, fold: Fold, a: Frag, r: Frag, i: nat)
    requires FoldsAlike(n, fold) && Absolute(a) && Absolute(r) && i < |r| && i < |a| && !IsSep(a[i]) && !IsSep(r[i])
    requires Normalize(n, Split(r, i)) < Normalize(n, Split(a, i))
    ensures |r| < |a| && IsSep(a[|r|]) && forall j :: i <= j < |r| ==> fold(a[j]) == fold(r[j])
    decreases |r| - i
  {
    hide Split, SkipWhile, Absolute;
    var e, f := SkipWhile(r, i, false), SkipWhile(a, i, false);
    SplitHere(r, i, e);
    SplitHere(a, i, f);
    var x, y := Normalize(n, Split(r, i)), Normalize(n, Split(a, i));
    assert x[0] == n.Fragment(r[i..e]) && y[0] == n.Fragment(a[i..f]) && x[0] == y[0];
    assert e == f;
    forall j | i <= j < e ensures fold(a[j]) == fold(r[j]) {
      assert x[0][j - i] == n.up(r[i..e][j - i]) && y[0][j - i] == n.up(a[i..f][j - i]);
    }
    assert x[1..] == Normalize(n, Split(r, e)) && y[1..] == Normalize(n, Split(a, e));
    assert x[1..] < y[1..];
    SplitAtEnd(a);
    if e < |r| {
      NextName(a, e);
      NextName(r, e);
      SplitOverSep(r, e);
      SplitOverSep(a, e);
      SameText(n, fold, a, r, e + 1);
    }
  }

  lemma NextName(path: Frag, e: nat)
    requires Absolute(path) && e < |path| && IsSep(path[e])
    ensures path[e] == SEPARATOR && e + 1 < |path| && !IsSep(path[e + 1])
  {}

  /** A path whose node lies below the working directory's is strictly under it as a text. */
  lemma UnderAsText(n: Norm, fold: Fold, a: Frag, root: Frag)
    requires FoldsAlike(n, fold) && Absolute(a) && AbsoluteDir(root) && PathOf(n, root) < PathOf(n, a)
    ensures IsStrictlyUnder(a, root, fold)
  {
    hide Split;
    var r := if IsSep(root[|root| - 1]) then root[..|root| - 1] else root;
    if r != root {
      SplitTrailing(r, 0);
      assert r + [SEPARATOR] == root;
    }
    SameText(n, fold, a, r, 0);
  }

  // ---- And the other way round ----

  /** What stands behind a separator comes after the names before it. */
  lemma {:induction false} SplitApart(a: Frag, b: Frag, i: nat)
    requires i <= |a|
    ensures Split(a + [SEPARATOR] + b, i) == Split(a, i) + Split(b, 0)
    decreases |a| - i
  {
    hide Split;
    var t := [SEPARATOR] + b;
    var w := a + [SEPARATOR] + b;
    assert w == a + t;
    var start := SkipWhile(a, i, true);
    SkipShort(a, t, i, true);
    if start < |a| {
      var end := SkipWhile(a, start, false);
      SkipShort(a, t, start, false);
      TokenEndIsNameEnd(a, start);
      assert SkipWhile(w, |a|, false) == |a| && w[start..end] == a[start..end];
      SkipStops(a, i);
      FirstName(a, i);
      FirstName(w, i);
      SplitApart(a, b, end);
      assert [a[start..end]] + (Split(a, end) + Split(b, 0)) == [a[start..end]] + Split(a, end) + Split(b, 0);
    } else {
      OnlySeps(a, i);
      assert IsSep(w[|a|]);
      ManifestCursor.SplitSkips(w, i, |a| + 1);
      assert w[|a| + 1..] == b;
      ManifestCursor.SplitShift(w, |a| + 1, 0);
    }
  }

  lemma FirstName(path: Frag, i: nat)
    requires i <= |path| && SkipWhile(path, i, true) < |path|
    ensures var start := SkipWhile(path, i, true);
            var end := SkipWhile(path, start, false);
            end > start && Split(path, i) == [path[start..end]] + Split(path, end)
  {
    hide SkipWhile;
    SkipStops(path, i);
  }

  lemma {:induction false} OnlySeps(a: Frag, i: nat)
    requires i <= |a| && SkipWhile(a, i, true) == |a|
    ensures Split(a, i) == [] && forall j :: i <= j < |a| ==> IsSep(a[j])
    decreases |a| - i
  {
    if i < |a| {
      OnlySeps(a, i + 1);
      SplitOverSep(a, i);
    } else {
      SplitAtEnd(a);
    }
  }

  /** Letters that compare as the same are the same in the policy tree too. */
  ghost predicate FoldsExactly(n: Norm, fold: Fold) {
    forall x: WChar, y: WChar :: fold(x) == fold(y) <==> n.up(x) == n.up(y)
  }

  /** Texts that agree up to case have the same names. */
  lemma {:induction false} SkipAlike(a: Frag, b: Frag, i: nat, sep: bool)
    requires |a| == |b| && i <= |a| && forall j :: 0 <= j < |a| ==> IsSep(a[j]) == IsSep(b[j])
    ensures SkipWhile(a, i, sep) == SkipWhile(b, i, sep)
    decreases |a| - i
  {
    if i < |a| { SkipAlike(a, b, i + 1, sep); }
  }

  lemma {:induction false} SplitAlike(n: Norm, a: Frag, b: Frag, i: nat)
    requires |a| == |b| && i <= |a| && forall j :: 0 <= j < |a| ==> n.up(a[j]) == n.up(b[j]) && IsSep(a[j]) == IsSep(b[j])
    ensures Normalize(n, Split(a, i)) == Normalize(n, Split(b, i))
    decreases |a| - i
  {
    hide Split, SkipWhile;
    var start := SkipWhile(a, i, true);
    SkipAlike(a, b, i, true);
    if start < |a| {
      var end := SkipWhile(a, start, false);
      SkipAlike(a, b, start, false);
      FirstName(a, i);
      FirstName(b, i);
      SplitAlike(n, a, b, end);
      assert n.Fragment(a[start..end]) == n.Fragment(b[start..end]) by {
        forall k | 0 <= k < end - start ensures n.up(a[start..end][k]) == n.up(b[start..end][k]) {}
      }
      NormalizeCons(n, a[start..end], Split(a, end));
      NormalizeCons(n, b[start..end], Split(b, end));
    } else {
      OnlySeps(a, i);
      OnlySeps(b, i);
    }
  }

  lemma NormalizeCons(n: Norm, f: Frag, fs: seq<Frag>)
    ensures Normalize(n, [f] + fs) == [n.Fragment(f)] + Normalize(n, fs)
  {}

  lemma NormalizeConcat(n: Norm, a: seq<Frag>, b: seq<Frag>)
    ensures Normalize(n, a + b) == Normalize(n, a) + Normalize(n, b)
  {}

  /** A text strictly under the working directory has a node below it. */
  lemma UnderAsNode(n: Norm, fold: Fold, a: Frag, root: Frag)
    requires FoldsExactly(n, fold) && KeepsSeps(n) && Absolute(a) && AbsoluteDir(root) && IsStrictlyUnder(a, root, fold)
    ensures PathOf(n, root) < PathOf(n, a)
  {
    hide Split, Normalize;
    var r := if IsSep(root[|root| - 1]) then root[..|root| - 1] else root;
    if r != root {
      SplitTrailing(r, 0);
      assert r + [SEPARATOR] == root;
    }
    var k := |r|;
    var front, rest := a[..k], a[k + 1..];
    NextName(a, k);
    assert a == front + [SEPARATOR] + rest;
    SplitApart(front, rest, 0);
    forall j | 0 <= j < k ensures n.up(front[j]) == n.up(r[j]) && IsSep(front[j]) == IsSep(r[j]) {
      assert fold(a[j]) == fold(root[j]);
      assert IsSep(n.up(front[j])) == IsSep(front[j]) && IsSep(n.up(r[j])) == IsSep(r[j]);
    }
    SplitAlike(n, front, r, 0);
    NormalizeConcat(n, Split(front, 0), Split(rest, 0));
    assert !IsSep(rest[0]);
    SplitHere(rest, 0, SkipWhile(rest, 0, false));
    NormalizeCons(n, rest[..SkipWhile(rest, 0, false)], Split(rest, SkipWhile(rest, 0, false)));
  }

  /** So the launcher's comparison of texts is the order of the policy tree. */
  lemma UnderIff(n: Norm, fold: Fold, a: Frag, root: Frag)
    requires FoldsExactly(n, fold) && KeepsSeps(n) && Absolute(a) && AbsoluteDir(root)
    ensures IsStrictlyUnder(a, root, fold) <==> PathOf(n, root) < PathOf(n, a)
  {
    hide IsStrictlyUnder, PathOf, Absolute, AbsoluteDir;
    if IsStrictlyUnder(a, root, fold) {
      UnderAsNode(n, fold, a, root);
    } else if PathOf(n, root) < PathOf(n, a) {
      UnderAsText(n, fold, a, root);
    }
  }

  lemma FrontAbsolute(w: Frag)
    requires Absolute(w) && Ancestor(ParentDir(w), w) && ParentDir(w) != []
    ensures Absolute(ParentDir(w))
  {
    hide ParentDir;
    var a := ParentDir(w);
    assert a[|a| - 1] == w[|a| - 1] && IsSep(w[|a|]);
    forall i | 0 < i < |a| ensures !(IsSep(a[i - 1]) && IsSep(a[i])) {
      assert a[i - 1] == w[i - 1] && a[i] == w[i];
    }
  }

  /** The parent of a writable path is an output directory, if it lies below the working
      directory. */
  lemma ParentListed(n: Norm, l: Launch, fold: Fold, w: Frag)
    requires FoldsAlike(n, fold) && AbsoluteDir(l.workingDir) && w in l.writable && Absolute(w)
    requires PathOf(n, w) != [] && PathOf(n, l.workingDir) < Parent(PathOf(n, w))
    ensures exists d <- DirsOf(l, fold) :: PathOf(n, d) == Parent(PathOf(n, w))
  {
    hide ParentDir, Split, OutputDirsOf, IsStrictlyUnder;
    ParentIs(w);
    if exists d: Frag :: Ancestor(d, w) {
      var a := ParentDir(w);
      ParentPath(n, w);
      SplitAtEnd([]);
      FrontAbsolute(w);
      UnderAsText(n, fold, a, l.workingDir);
      OutputDirsAre(l.writable, l.workingDir, fold);
      assert IsOutputDir(a, l.writable, l.workingDir, fold);
    } else {
      forall i | 0 <= i < |w| ensures !IsSep(w[i]) {
        assert !Ancestor(w[..i], w);
      }
      OneName(w);
    }
  }

  // ---- The output directories as nodes ----

  lemma CutAbsolute(d: Frag, w: Frag)
    requires Absolute(w) && Ancestor(d, w) && d != []
    ensures Absolute(d)
  {
    assert d == w[..|d|] && d[|d| - 1] == w[|d| - 1] && IsSep(w[|d|]);
    forall i | 0 < i < |d| ensures !(IsSep(d[i - 1]) && IsSep(d[i])) {
      assert d[i - 1] == w[i - 1] && d[i] == w[i];
    }
  }

  /** Above a path as a text is above it in the tree. */
  lemma AboveAsNode(n: Norm, d: Frag, w: Frag)
    requires Absolute(w) && Ancestor(d, w)
    ensures PathOf(n, d) < PathOf(n, w)
  {
    hide Split, Normalize;
    var rest := w[|d| + 1..];
    NextName(w, |d|);
    assert w == d + [SEPARATOR] + rest && !IsSep(rest[0]);
    SplitApart(d, rest, 0);
    NormalizeConcat(n, Split(d, 0), Split(rest, 0));
    SplitHere(rest, 0, SkipWhile(rest, 0, false));
    NormalizeCons(n, rest[..SkipWhile(rest, 0, false)], Split(rest, SkipWhile(rest, 0, false)));
  }

  /** And every node above it but the root is that of a cut of the text. */
  lemma {:induction false} AncestorAt(n: Norm, w: Frag, q: NodePath) returns (d: Frag)
    requires Absolute(w) && q != [] && q < PathOf(n, w)
    ensures Ancestor(d, w) && Absolute(d) && PathOf(n, d) == q
    decreases |w|
  {
    hide Split, Normalize, ParentDir;
    ParentIs(w);
    var a := ParentDir(w);
    if !exists d: Frag :: Ancestor(d, w) {
      forall i | 0 <= i < |w| ensures !IsSep(w[i]) {
        assert !Ancestor(w[..i], w);
      }
      OneName(w);
      OneNode(n, w);
      assert false;
    }
    ParentPath(n, w);
    SplitAtEnd([]);
    NoNames(n);
    FrontAbsolute(w);
    if q == PathOf(n, a) {
      d := a;
    } else {
      assert q < PathOf(n, a);
      d := AncestorAt(n, a, q);
    }
  }

  lemma OneNode(n: Norm, w: Frag)
    requires Split(w, 0) == [w]
    ensures |PathOf(n, w)| == 1
  {}

  lemma NoNames(n: Norm)
    ensures PathOf(n, []) == []
  {}

  /** The output directories of a launch are exactly the nodes strictly between the working
      directory and a writable path. */
  lemma OutputNodesAre(n: Norm, l: Launch, fold: Fold, q: NodePath)
    requires FoldsExactly(n, fold) && KeepsSeps(n) && AbsoluteDir(l.workingDir) && forall w <- l.writable :: Absolute(w)
    ensures (exists d <- DirsOf(l, fold) :: PathOf(n, d) == q)
            <==> PathOf(n, l.workingDir) < q && exists w <- l.writable :: q < PathOf(n, w)
  {
    hide Split, Normalize, OutputDirsOf, IsStrictlyUnder, Absolute, AbsoluteDir;
    OutputDirsAre(l.writable, l.workingDir, fold);
    if d :| d in DirsOf(l, fold) && PathOf(n, d) == q {
      var w :| w in l.writable && Ancestor(d, w);
      assert d != [] by { NothingUnder(l.workingDir, fold); }
      CutAbsolute(d, w);
      UnderIff(n, fold, d, l.workingDir);
      AboveAsNode(n, d, w);
    }
    if PathOf(n, l.workingDir) < q && exists w <- l.writable :: q < PathOf(n, w) {
      var w :| w in l.writable && q < PathOf(n, w);
      var d := AncestorAt(n, w, q);
      UnderIff(n, fold, d, l.workingDir);
      assert IsOutputDir(d, l.writable, l.workingDir, fold);
    }
  }
}
