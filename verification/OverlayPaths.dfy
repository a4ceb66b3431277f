/** The maps between the paths a process uses and those of the backing store. */
module OverlayPaths {
  import opened Optional

  const SEP := '\\'
  const WIN32_PREFIX := "\\\\?\\"
  const NT_PREFIX := "\\??\\"

  /** The roots of one invocation, and how letters compare. */
  datatype Roots = Roots(source: string, backing: string, fold: char -> char)

  function TrimSeparators(s: string): (r: string)
    ensures r <= s && (r != [] ==> r[|r| - 1] != SEP)
    ensures forall i :: |r| <= i < |s| ==> s[i] == SEP
  {
    if s != [] && s[|s| - 1] == SEP then TrimSeparators(s[..|s| - 1]) else s
  }

  /** Equal up to case. */
  predicate SameText(a: string, b: string, fold: char -> char) {
    |a| == |b| && forall i :: 0 <= i < |a| ==> fold(a[i]) == fold(b[i])
  }

  /** `path` is `root` or lies below it, at the boundary of a component. */
  predicate UnderRoot(path: string, root: string, fold: char -> char) {
    |path| >= |root| && SameText(path[..|root|], root, fold) && (|path| == |root| || path[|root|] == SEP)
  }

  predicate DrivePath(path: string) {
    |path| >= 3 && path[1] == ':'
  }

  function OverlayBackingPath(r: Roots, path: string): (b: Option<string>)
    ensures b == None <==> |path| < 3 || path[1] != ':'
    ensures b.Some? ==> "\\\\?\\" + r.backing <= b.value
  {
    if !DrivePath(path) then None
    else
      var src := TrimSeparators(r.source);
      if r.source != [] && UnderRoot(path, src, r.fold) then
        var rest := path[|src|..];
        Some(WIN32_PREFIX + r.backing + (if rest != [] && rest[0] != SEP then [SEP] else []) + rest)
      else Some(WIN32_PREFIX + r.backing + [SEP] + [path[0]] + path[2..])
  }

  /** A type prefix and the path after it. */
  function SplitPrefix(path: string): (string, string) {
    if WIN32_PREFIX <= path then (WIN32_PREFIX, path[4..])
    else if NT_PREFIX <= path then (NT_PREFIX, path[4..])
    else ([], path)
  }

  function ReverseOverlayFinalPath(r: Roots, final: string): Option<string> {
    if r.backing == [] || r.source == [] then None
    else
      var (prefix, body) := SplitPrefix(final);
      var root := TrimSeparators(r.backing);
      if UnderRoot(body, root, r.fold) then Some(prefix + TrimSeparators(r.source) + body[|root|..]) else None
  }

  /** Both roots are set, and the source root is a drive path. */
  predicate Set(r: Roots) {
    r.backing != [] && |TrimSeparators(r.source)| >= 2 && r.source[1] == ':'
  }

  predicate InCone(r: Roots, path: string) {
    DrivePath(path) && UnderRoot(path, TrimSeparators(r.source), r.fold)
  }

  /** The path below the source root. */
  function Rest(r: Roots, path: string): string
    requires InCone(r, path)
  {
    path[|TrimSeparators(r.source)|..]
  }

  /** The path as the source root spells it. */
  function Canonical(r: Roots, path: string): string
    requires InCone(r, path)
  {
    TrimSeparators(r.source) + Rest(r, path)
  }

  lemma BackingOf(r: Roots, path: string)
    requires Set(r) && InCone(r, path)
    ensures OverlayBackingPath(r, path) == Some(WIN32_PREFIX + (r.backing + Rest(r, path)))
  {
    assert WIN32_PREFIX + r.backing + [] + Rest(r, path) == WIN32_PREFIX + (r.backing + Rest(r, path));
  }

  lemma ReverseOf(r: Roots, body: string)
    requires Set(r)
    ensures var root := TrimSeparators(r.backing);
            ReverseOverlayFinalPath(r, WIN32_PREFIX + body)
            == if UnderRoot(body, root, r.fold) then Some(WIN32_PREFIX + (TrimSeparators(r.source) + body[|root|..])) else None
  {
    assert (WIN32_PREFIX + body)[4..] == body;
    var root := TrimSeparators(r.backing);
    if UnderRoot(body, root, r.fold) {
      assert WIN32_PREFIX + TrimSeparators(r.source) + body[|root|..] == WIN32_PREFIX + (TrimSeparators(r.source) + body[|root|..]);
    }
  }

  /** The path as the source root spells it differs in the case of the root only, and goes to
      the same place. */
  lemma CanonicalSame(r: Roots, path: string)
    requires Set(r) && InCone(r, path)
    ensures var c := Canonical(r, path);
            && |c| == |path| && (forall i :: 0 <= i < |c| ==> r.fold(c[i]) == r.fold(path[i]))
            && InCone(r, c) && Rest(r, c) == Rest(r, path) && OverlayBackingPath(r, c) == OverlayBackingPath(r, path)
  {
    var c, src := Canonical(r, path), TrimSeparators(r.source);
    assert c[..|src|] == src && c[|src|..] == Rest(r, path);
    forall i | 0 <= i < |c| ensures r.fold(c[i]) == r.fold(path[i]) {
      if i < |src| {
        assert path[..|src|][i] == path[i];
      } else {
        assert c[i] == Rest(r, path)[i - |src|] == path[i];
      }
    }
    BackingOf(r, path);
    BackingOf(r, c);
  }

  /** So is any other spelling of the root in other case: it stays in the cone and goes to the
      same place. */
  lemma RespelledSame(r: Roots, path: string, other: string)
    requires Set(r) && InCone(r, path) && |other| == |path| && other[1] == ':'
    requires forall i :: 0 <= i < |path| ==> r.fold(other[i]) == r.fold(path[i])
    requires forall i :: |TrimSeparators(r.source)| <= i < |path| ==> other[i] == path[i]
    ensures InCone(r, other) && OverlayBackingPath(r, other) == OverlayBackingPath(r, path)
  {
    var src := TrimSeparators(r.source);
    forall i | 0 <= i < |src| ensures r.fold(other[..|src|][i]) == r.fold(src[i]) {
      assert r.fold(path[..|src|][i]) == r.fold(src[i]);
    }
    assert other[|src|..] == path[|src|..];
    BackingOf(r, path);
    BackingOf(r, other);
  }

  /** Mapping a path of the cone to the backing store and back gives the path as the source
      root spells it, exactly when the backing root has no trailing separator. */
  lemma ReverseOfBacking(r: Roots, path: string)
    requires Set(r) && InCone(r, path)
    ensures OverlayBackingPath(r, path).Some?
    ensures ReverseOverlayFinalPath(r, OverlayBackingPath(r, path).value) == Some(WIN32_PREFIX + Canonical(r, path))
            <==> TrimSeparators(r.backing) == r.backing
  {
    hide UnderRoot, TrimSeparators, OverlayBackingPath, ReverseOverlayFinalPath;
    var root, src, rest := TrimSeparators(r.backing), TrimSeparators(r.source), Rest(r, path);
    BackingOf(r, path);
    ReverseOf(r, r.backing + rest);
    BackingUnderRoot(r, path);
    var extra := r.backing[|root|..];
    assert |src + (extra + rest)| == |src + rest| + |extra|;
    if extra == [] {
      assert extra + rest == rest && root == r.backing;
    } else {
      assert |WIN32_PREFIX + (src + (extra + rest))| != |WIN32_PREFIX + Canonical(r, path)|;
    }
  }

  lemma BackingUnderRoot(r: Roots, path: string)
    requires Set(r) && InCone(r, path)
    ensures var root, body := TrimSeparators(r.backing), r.backing + Rest(r, path);
            UnderRoot(body, root, r.fold) && body[|root|..] == r.backing[|root|..] + Rest(r, path)
  {
    var root, rest := TrimSeparators(r.backing), Rest(r, path);
    var body := r.backing + rest;
    assert body[..|root|] == root;
    assert rest != [] ==> rest[0] == SEP;
  }

  /** A path of the backing store maps back into the cone, and forward again to the same place
      as the backing root spells it. */
  lemma BackingOfReverse(r: Roots, body: string)
    requires Set(r) && TrimSeparators(r.backing) == r.backing && UnderRoot(body, r.backing, r.fold)
    requires |TrimSeparators(r.source)| + |body| - |r.backing| >= 3
    ensures exists path :: InCone(r, path) && ReverseOverlayFinalPath(r, WIN32_PREFIX + body) == Some(WIN32_PREFIX + path)
                           && OverlayBackingPath(r, path) == Some(WIN32_PREFIX + (r.backing + body[|r.backing|..]))
                           && forall i :: 0 <= i < |body| ==> r.fold((r.backing + body[|r.backing|..])[i]) == r.fold(body[i])
  {
    var src, rest := TrimSeparators(r.source), body[|r.backing|..];
    var path := src + rest;
    assert path[..|src|] == src && path[|src|..] == rest;
    ReverseOf(r, body);
    BackingOf(r, path);
    forall i | 0 <= i < |body| ensures r.fold((r.backing + rest)[i]) == r.fold(body[i]) {
      if i < |r.backing| { assert body[..|r.backing|][i] == body[i]; }
    }
  }

  /** Two paths of the cone share a backing path exactly when they have the same remainder. */
  lemma DistinctStayDistinct(r: Roots, path: string, other: string)
    requires Set(r) && InCone(r, path) && InCone(r, other)
    ensures OverlayBackingPath(r, path) == OverlayBackingPath(r, other) <==> Rest(r, path) == Rest(r, other)
  {
    BackingOf(r, path);
    BackingOf(r, other);
    var n := |WIN32_PREFIX + r.backing|;
    forall p | p in [path, other] && InCone(r, p) ensures (WIN32_PREFIX + (r.backing + Rest(r, p)))[n..] == Rest(r, p) {}
    assert path in [path, other] && other in [path, other];
  }

  /** Either type prefix, or none, is kept. */
  lemma ReversePrefixes(r: Roots, prefix: string, body: string)
    requires Set(r)
    requires prefix == "\\\\?\\" || prefix == "\\??\\" || (prefix == "" && !("\\\\?\\" <= body) && !("\\??\\" <= body))
    ensures var root := TrimSeparators(r.backing);
            ReverseOverlayFinalPath(r, prefix + body)
            == if UnderRoot(body, root, r.fold) then Some(prefix + (TrimSeparators(r.source) + body[|root|..])) else None
  {
    var root := TrimSeparators(r.backing);
    assert prefix != "" ==> (prefix + body)[4..] == body;
    assert prefix == "" ==> prefix + body == body;
    if prefix == "\\??\\" { assert (prefix + body)[1] == '?'; }
    if UnderRoot(body, root, r.fold) {
      assert prefix + TrimSeparators(r.source) + body[|root|..] == prefix + (TrimSeparators(r.source) + body[|root|..]);
    }
  }

  /** A sibling whose name only starts with the root's is not taken for a path below it. */
  lemma SiblingsApart(r: Roots, suffix: string)
    requires Set(r) && suffix != [] && suffix[0] != SEP
    ensures !InCone(r, TrimSeparators(r.source) + suffix)
    ensures ReverseOverlayFinalPath(r, WIN32_PREFIX + (TrimSeparators(r.backing) + suffix)) == None
  {
    ReverseOf(r, TrimSeparators(r.backing) + suffix);
  }

  /** What the mirror fallback costs: a path outside the source root can share the backing path
      of one inside it. */
  lemma MirrorCollides(r: Roots, drive: char, rest: string)
    requires Set(r) && rest != [] && rest[0] == SEP && !UnderRoot([drive, ':'] + rest, TrimSeparators(r.source), r.fold)
    ensures var inside := TrimSeparators(r.source) + [SEP, drive] + rest;
            InCone(r, inside) && OverlayBackingPath(r, inside) == OverlayBackingPath(r, [drive, ':'] + rest)
  {
    var src, outside := TrimSeparators(r.source), [drive, ':'] + rest;
    var inside := src + [SEP, drive] + rest;
    assert inside[..|src|] == src && inside[|src|..] == [SEP, drive] + rest && outside[2..] == rest;
    BackingOf(r, inside);
    assert WIN32_PREFIX + (r.backing + ([SEP, drive] + rest)) == WIN32_PREFIX + r.backing + [SEP] + [drive] + rest;
  }

  /** It does with exactly the paths whose remainder is its drive letter and what follows. */
  lemma MirrorExact(r: Roots, outside: string, path: string)
    requires Set(r) && InCone(r, path) && DrivePath(outside) && !InCone(r, outside)
    ensures OverlayBackingPath(r, outside) == OverlayBackingPath(r, path) <==> Rest(r, path) == [SEP, outside[0]] + outside[2..]
  {
    BackingOf(r, path);
    var n := |WIN32_PREFIX + r.backing|;
    var mirror, below := [SEP, outside[0]] + outside[2..], Rest(r, path);
    assert WIN32_PREFIX + r.backing + [SEP] + [outside[0]] + outside[2..] == WIN32_PREFIX + (r.backing + mirror);
    assert (WIN32_PREFIX + (r.backing + mirror))[n..] == mirror && (WIN32_PREFIX + (r.backing + below))[n..] == below;
  }

  /** So a sibling of the source root, which only starts with its name, is mirrored and shares
      a backing path with its mirror in the cone alone. */
  lemma SiblingMirrored(r: Roots, suffix: string, path: string)
    requires Set(r) && suffix != [] && suffix[0] != SEP && InCone(r, path)
    ensures var sibling := TrimSeparators(r.source) + suffix;
            OverlayBackingPath(r, sibling) == OverlayBackingPath(r, path) <==> Rest(r, path) == [SEP, sibling[0]] + sibling[2..]
  {
    SiblingsApart(r, suffix);
    MirrorExact(r, TrimSeparators(r.source) + suffix, path);
  }
}
