/** Resuming a search of the policy tree: the policy of a child is looked up from the cursor that
    the search for its directory left behind. */
module ManifestCursor {
  import opened Words
  import opened ManifestFormat
  import opened ManifestReader
  import opened ManifestPayload
  import opened ManifestTree
  import opened ManifestBuilder
  import opened ManifestAgreement
  import opened Scopes

  /** The record a search ended at, and whether there was more path than tree. */
  datatype Cursor = At(record: nat, truncated: bool) | Broken

  function Search(n: Norm, b: seq<byte>, from: Cursor, tokens: seq<Frag>): Cursor
    decreases |tokens|
  {
    if from.Broken? || from.truncated then from
    else if from.record + 16 > |b| then Broken
    else if tokens == [] then from
    else if U32At(b, from.record + 12) == 0 then At(from.record, true)
    else
      match FindChild(n, b, from.record, tokens[0])
      case Found(at) => Search(n, b, At(at, false), tokens[1..])
      case NotFound => At(from.record, true)
      case OutOfBounds => Broken
      case Endless => Broken
  }

  /** The cone policy of the record after a truncated search, its node policy otherwise. */
  function PolicyAt(b: seq<byte>, c: Cursor): Answer {
    if c.Broken? || c.record + 16 > |b| then Unreadable
    else if c.truncated then Policy(U32At(b, c.record + 4), false)
    else Policy(U32At(b, c.record + 8), true)
  }

  lemma {:induction false} SearchFinds(n: Norm, b: seq<byte>, base: nat, tokens: seq<Frag>)
    ensures PolicyAt(b, Search(n, b, At(base, false), tokens)) == FindPolicy(n, b, base, tokens)
    decreases |tokens|
  {
    hide FindChild, U32At;
    if base + 16 <= |b| && tokens != [] && U32At(b, base + 12) != 0 {
      match FindChild(n, b, base, tokens[0]) {
        case Found(at) => SearchFinds(n, b, at, tokens[1..]);
        case _ =>
      }
    }
  }

  /** Searching on from a cursor, truncated or not, is searching for the whole path. */
  lemma {:induction false} Resumes(n: Norm, b: seq<byte>, from: Cursor, s: seq<Frag>, t: seq<Frag>)
    ensures Search(n, b, Search(n, b, from, s), t) == Search(n, b, from, s + t)
    decreases |s|
  {
    hide FindChild, U32At;
    if s == [] {
      assert s + t == t;
    } else {
      assert (s + t)[0] == s[0] && (s + t)[1..] == s[1..] + t;
      if from.At? && !from.truncated && from.record + 16 <= |b| && U32At(b, from.record + 12) != 0 {
        match FindChild(n, b, from.record, s[0]) {
          case Found(at) => Resumes(n, b, At(at, false), s[1..], t);
          case _ =>
        }
      }
    }
  }

  // ---- The path of a child ----

  /** Additional components lose the separators they start with. */
  function Suffix(more: Frag): (s: Frag)
    ensures s != [] ==> !IsSep(s[0])
    ensures |s| <= |more| && s == more[|more| - |s|..] && forall i :: 0 <= i < |more| - |s| ==> IsSep(more[i])
  {
    if more != [] && IsSep(more[0]) then Suffix(more[1..]) else more
  }

  /** `CanonicalizedPath::Extend`. */
  function Extend(dir: Frag, more: Frag): Frag {
    Joined(dir, Suffix(more))
  }

  function Joined(dir: Frag, s: Frag): Frag {
    (if dir == [] || IsSep(dir[|dir| - 1]) then dir else dir + [0x5C]) + s
  }

  /** Ends in more than one separator, or is nothing but one: the reader takes what is added for
      more of the last component. */
  predicate Hanging(dir: Frag) {
    dir != [] && IsSep(dir[|dir| - 1]) && (|dir| == 1 || IsSep(dir[|dir| - 2]))
  }

  /** Where the first component ends, in a path and in one that goes on after it. */
  lemma {:induction false} TokenEndIs(path: Frag, i: nat, lead: bool)
    requires i <= |path| && (lead ==> forall j :: 0 <= j < i ==> IsSep(path[j])) && (!lead ==> i > 0 && !IsSep(path[i - 1]))
    ensures var e := TokenEnd(path, i, lead);
            && (e < |path| ==> e > 0 && IsSep(path[e]) && !IsSep(path[e - 1]))
            && (e == |path| && path != [] && IsSep(path[e - 1]) ==> forall j :: 0 <= j < |path| ==> IsSep(path[j]))
    decreases |path| - i
  {
    if i < |path| && !(IsSep(path[i]) && !lead) {
      TokenEndIs(path, i + 1, lead && IsSep(path[i]));
    }
  }

  lemma {:induction false} TokenEndLonger(path: Frag, more: Frag, i: nat, lead: bool)
    requires i <= |path|
    requires TokenEnd(path, i, lead) < |path| || (more != [] && IsSep(more[0]) && path != [] && i < |path| && !IsSep(path[|path| - 1]))
    ensures TokenEnd(path + more, i, lead) == TokenEnd(path, i, lead)
    decreases |path| - i
  {
    if i < |path| {
      assert (path + more)[i] == path[i];
      if !(IsSep(path[i]) && !lead) {
        if i + 1 < |path| || TokenEnd(path, i, lead) < |path| {
          TokenEndLonger(path, more, i + 1, lead && IsSep(path[i]));
        } else {
          assert (path + more)[i + 1] == more[0];
        }
      }
    }
  }

  lemma {:induction false} LeadThrough(path: Frag, more: Frag, i: nat)
    requires i <= |path| && more != [] && forall j :: 0 <= j < |path| ==> IsSep(path[j])
    ensures TokenEnd(path + more, i, true) > |path|
    decreases |path| - i
  {
    if i < |path| {
      assert (path + more)[i] == path[i];
      LeadThrough(path, more, i + 1);
    }
  }

  lemma NoTokens()
    ensures Tokens([]) == []
  {}

  /** The last component of a directory, with what follows. */
  lemma LastName(dir: Frag, s: Frag)
    requires dir != [] && TokenEnd(dir, 0, true) == |dir| && !IsSep(dir[|dir| - 1])
    ensures Tokens(Joined(dir, s)) == Tokens(dir) + Tokens(s) && !Hanging(dir)
  {
    hide Tokens, TokenEnd;
    var w := Joined(dir, s);
    assert w == dir + ([0x5C] + s);
    TokenEndLonger(dir, [0x5C] + s, 0, true);
    assert w[..|dir|] == dir && w[|dir| + 1..] == s;
    TokensUnfold(dir);
    TokensUnfold(w);
    assert [dir] + [] == [dir] && dir[..|dir|] == dir;
  }

  lemma OnlySeparators(dir: Frag, s: Frag)
    requires dir != [] && TokenEnd(dir, 0, true) == |dir| && IsSep(dir[|dir| - 1]) && s != []
    ensures Tokens(Joined(dir, s)) != Tokens(dir) + Tokens(s) && Hanging(dir)
  {
    hide Tokens, TokenEnd;
    TokenEndIs(dir, 0, true);
    LeadThrough(dir, s, 0);
    TokensUnfold(dir);
    TokensUnfold(dir + s);
    assert Tokens(dir)[0] == dir && |Tokens(dir + s)[0]| > |dir|;
  }

  lemma LastToken(dir: Frag, s: Frag)
    requires dir != [] && TokenEnd(dir, 0, true) == |dir|
    ensures Tokens(Joined(dir, s)) == Tokens(dir) + Tokens(s) <==> s == [] || !Hanging(dir)
  {
    hide Tokens, TokenEnd, Hanging;
    if !IsSep(dir[|dir| - 1]) {
      LastName(dir, s);
    } else if s == [] {
      NoTokens();
      assert dir + [] == dir && Tokens(dir) + [] == Tokens(dir);
    } else {
      OnlySeparators(dir, s);
    }
  }

  lemma HangingInside(dir: Frag, e: nat)
    requires 0 < e < |dir| && IsSep(dir[e]) && !IsSep(dir[e - 1])
    ensures Hanging(dir) <==> Hanging(dir[e + 1..])
  {}

  lemma InnerToken(dir: Frag, s: Frag)
    requires dir != [] && TokenEnd(dir, 0, true) < |dir|
    ensures var e := TokenEnd(dir, 0, true);
            && Tokens(dir) == [dir[..e]] + Tokens(dir[e + 1..])
            && Tokens(Joined(dir, s)) == [dir[..e]] + Tokens(Joined(dir[e + 1..], s))
            && (Hanging(dir) <==> Hanging(dir[e + 1..]))
  {
    hide Tokens, TokenEnd, Hanging, Joined;
    TokenEndIs(dir, 0, true);
    var e, w := TokenEnd(dir, 0, true), Joined(dir, s);
    HangingInside(dir, e);
    JoinedInside(dir, s, e);
    TokenEndLonger(dir, w[|dir|..], 0, true);
    TokensUnfold(dir);
    TokensUnfold(w);
  }

  lemma JoinedInside(dir: Frag, s: Frag, e: nat)
    requires e < |dir| && IsSep(dir[e])
    ensures var w := Joined(dir, s);
            |w| >= |dir| && w == dir + w[|dir|..] && w[..e] == dir[..e] && w[e + 1..] == Joined(dir[e + 1..], s)
  {
    var w := Joined(dir, s);
    assert w[e + 1..] == Joined(dir[e + 1..], s);
  }

  lemma JoinedToNothing(s: Frag)
    ensures Joined([], s) == s && !Hanging([])
  {
    assert [] + s == s;
  }

  /** The components of the extended path are those of the directory and then those of what is
      added, exactly unless the directory is left hanging in separators. */
  lemma {:induction false} ExtendTokens(dir: Frag, s: Frag)
    ensures Tokens(Joined(dir, s)) == Tokens(dir) + Tokens(s) <==> s == [] || !Hanging(dir)
    decreases |dir|
  {
    hide Tokens, TokenEnd, Hanging, Joined;
    if dir == [] {
      NoTokens();
      JoinedToNothing(s);
      assert [] + Tokens(s) == Tokens(s);
    } else {
      var e := TokenEnd(dir, 0, true);
      if e == |dir| {
        LastToken(dir, s);
      } else {
        InnerToken(dir, s);
        ExtendTokens(dir[e + 1..], s);
        var a, b, c := Tokens(Joined(dir[e + 1..], s)), Tokens(dir[e + 1..]), Tokens(s);
        assert ([dir[..e]] + b) + c == [dir[..e]] + (b + c);
        assert ([dir[..e]] + a)[1..] == a && ([dir[..e]] + (b + c))[1..] == b + c;
      }
    }
  }

  /** Where it is, both lookups meet a component with a separator in it, which no scope has. */
  lemma {:induction false} HangingTokens(dir: Frag, s: Frag)
    requires Hanging(dir) && s != []
    ensures var a, b, k := Tokens(dir), Tokens(Joined(dir, s)), |Tokens(dir)| - 1;
            && 0 <= k < |b| && a[..k] == b[..k] && HasSep(a[k]) && HasSep(b[k])
    decreases |dir|
  {
    hide Tokens, TokenEnd, Joined;
    var e := TokenEnd(dir, 0, true);
    TokensUnfold(dir);
    if e == |dir| {
      HangingToken(dir, s);
    } else {
      InnerToken(dir, s);
      var rest := dir[e + 1..];
      HangingTokens(rest, s);
      var a, b, k := Tokens(rest), Tokens(Joined(rest, s)), |Tokens(rest)| - 1;
      assert ([dir[..e]] + a)[..k + 1] == [dir[..e]] + a[..k] && ([dir[..e]] + b)[..k + 1] == [dir[..e]] + b[..k];
      assert ([dir[..e]] + a)[k + 1] == a[k] && ([dir[..e]] + b)[k + 1] == b[k];
    }
  }

  lemma HangingToken(dir: Frag, s: Frag)
    requires Hanging(dir) && TokenEnd(dir, 0, true) == |dir| && s != []
    ensures dir != [] && Tokens(dir) == [dir] && HasSep(dir) && Tokens(Joined(dir, s)) != [] && HasSep(Tokens(Joined(dir, s))[0])
  {
    hide Tokens, TokenEnd;
    TokenEndIs(dir, 0, true);
    LeadThrough(dir, s, 0);
    TokensUnfold(dir);
    TokensUnfold(dir + s);
    var w := dir + s;
    var e := TokenEnd(w, 0, true);
    assert w[..e][0] == dir[0] && dir[..|dir|] == dir && [dir] + [] == [dir];
  }

  lemma {:induction false} UnscopedBelow(ss: seq<Scope>, p: NodePath, q: NodePath)
    requires p <= q && (|p| < |q| ==> !Scoped(ss, q[..|p| + 1]))
    ensures ConeOf(ss, q) == ConeOf(ss, p) && (|p| < |q| ==> !Scoped(ss, q))
    decreases |q|
  {
    if |p| < |q| {
      assert q[..|p| + 1] <= q;
      assert |p| < |Parent(q)| ==> Parent(q)[..|p| + 1] == q[..|p| + 1];
      UnscopedBelow(ss, p, Parent(q));
    } else {
      assert p == q;
    }
  }

  lemma SepUnscoped(n: Norm, calls: seq<Call>, tokens: seq<Frag>, k: nat)
    requires KeepsSeps(n) && k < |tokens| && HasSep(tokens[k])
    ensures var ss, p := ScopesOf(n, calls), Normalize(n, tokens);
            ExpectedAt(ss, p) == Policy(WordOf(ConeOf(ss, p[..k])), false)
  {
    hide WordOf, Split;
    var ss, p := ScopesOf(n, calls), Normalize(n, tokens);
    var i :| 0 <= i < |tokens[k]| && IsSep(tokens[k][i]);
    assert IsSep(p[k][i]) && HasSep(p[k]);
    forall s | s in ss ensures !(p[..k + 1] <= s.path) {
      var j :| 0 <= j < |ss| && ss[j] == s;
      assert s == ScopeOf(n, calls[j]);
      ScopeHasNoSep(n, calls[j]);
      assert |s.path| > k ==> s.path[k] != p[k];
      assert p[..k + 1][k] == p[k];
    }
    assert p[..k + 1][..|p[..k]|] == p[..k];
    UnscopedBelow(ss, p[..k], p);
  }

  lemma ScopeHasNoSep(n: Norm, c: Call)
    requires KeepsSeps(n)
    ensures forall j :: 0 <= j < |ScopeOf(n, c).path| ==> !HasSep(ScopeOf(n, c).path[j])
  {
    hide Split;
    if !c.RootScope? {
      SplitHasNoSep(c.path, 0);
      forall j | 0 <= j < |ScopeOf(n, c).path| ensures !HasSep(ScopeOf(n, c).path[j]) {
        assert Split(c.path, 0)[j] in Split(c.path, 0);
        FragmentHasNoSep(n, Split(c.path, 0)[j]);
      }
    }
  }

  /** So either way the whole path and the cursor give the same policy. */
  lemma SamePolicy(n: Norm, calls: seq<Call>, dir: Frag, s: Frag)
    requires KeepsSeps(n)
    ensures ExpectedAt(ScopesOf(n, calls), Normalize(n, Tokens(dir) + Tokens(s))) == ExpectedAt(ScopesOf(n, calls), Normalize(n, Tokens(Joined(dir, s))))
  {
    hide Tokens, Hanging, Joined, ExpectedAt, ConeOf, WordOf, HasSep;
    ExtendTokens(dir, s);
    if Hanging(dir) && s != [] {
      HangingTokens(dir, s);
      var a, b, k := Tokens(dir) + Tokens(s), Tokens(Joined(dir, s)), |Tokens(dir)| - 1;
      assert a[..k] == b[..k];
      SepUnscoped(n, calls, a, k);
      SepUnscoped(n, calls, b, k);
      assert Normalize(n, a)[..k] == Normalize(n, b)[..k] by {
        forall i | 0 <= i < k ensures a[i] == b[i] { assert a[..k][i] == b[..k][i]; }
      }
    }
  }

  /** The policy of a child, looked up from its directory's cursor, is the policy that the
      launcher gave the whole path. */
  lemma ChildPolicyAgrees(n: Norm, o: Options, calls: seq<Call>, dir: Frag, more: Frag)
    requires KeepsNoNul(n) && KeepsSeps(n) && NoNulPaths(calls) && o.Fits() && NoNul(dir) && NoNul(more)
    requires NodeLen(TreeFor(n, ScopesOf(n, calls))) < 0x1_0000_0000
    ensures var b := Prelude(o) + NodeBytes(TreeFor(n, ScopesOf(n, calls)));
            var cursor := Search(n, b, At(TreeStart(b), false), Tokens(dir));
            PolicyAt(b, Search(n, b, cursor, Tokens(Suffix(more)))) == Expected(n, calls, Extend(dir, more))
  {
    hide NodeBytes, NodeLen, TreeFor, Prelude, TreeStart, Tokens, Search, PolicyAt, ExpectedAt, FindPolicy, Joined;
    var b, s := Prelude(o) + NodeBytes(TreeFor(n, ScopesOf(n, calls))), Suffix(more);
    SuffixNoNul(more);
    TokensNoNul(dir);
    TokensNoNul(s);
    Resumes(n, b, At(TreeStart(b), false), Tokens(dir), Tokens(s));
    SearchFinds(n, b, TreeStart(b), Tokens(dir) + Tokens(s));
    TokensRead(n, o, calls, Tokens(dir) + Tokens(s));
    SamePolicy(n, calls, dir, s);
  }

  lemma {:induction false} SuffixNoNul(more: Frag)
    requires NoNul(more)
    ensures NoNul(Suffix(more))
  {
    if more != [] && IsSep(more[0]) { SuffixNoNul(more[1..]); }
  }

  lemma {:induction false} SplitSkips(path: Frag, i: nat, k: nat)
    requires i <= k <= |path| && forall j :: i <= j < k ==> IsSep(path[j])
    ensures Split(path, i) == Split(path, k)
    decreases k - i
  {
    hide Split;
    if i < k {
      SplitOverSep(path, i);
      SplitSkips(path, i + 1, k);
    }
  }

  lemma {:induction false} SuffixIs(more: Frag, k: nat)
    requires k <= |more| && (forall i :: 0 <= i < k ==> IsSep(more[i])) && (k < |more| ==> !IsSep(more[k]))
    ensures Suffix(more) == more[k..]
    decreases |more|
  {
    if k > 0 {
      assert IsSep(more[0]) && more[1..][k - 1..] == more[k..];
      SuffixIs(more[1..], k - 1);
    }
  }

  lemma SuffixTokens(more: Frag, k: nat)
    requires k <= |more| && Plain(more[k..])
    ensures Tokens(more[k..]) == Split(more, k)
  {
    hide Tokens, Split;
    var s := more[k..];
    assert s[0..] == s;
    PlainTokens(s, 0);
    SplitShift(more, k, 0);
  }

  lemma {:induction false} SkipShift(path: Frag, k: nat, i: nat, sep: bool)
    requires k + i <= |path|
    ensures SkipWhile(path[k..], i, sep) + k == SkipWhile(path, k + i, sep)
    decreases |path| - k - i
  {
    if k + i < |path| { SkipShift(path, k, i + 1, sep); }
  }

  lemma {:induction false} SplitShift(path: Frag, k: nat, i: nat)
    requires k + i <= |path|
    ensures Split(path[k..], i) == Split(path, k + i)
    decreases |path| - k - i
  {
    hide SkipWhile;
    var s := path[k..];
    SkipShift(path, k, i, true);
    var start := SkipWhile(s, i, true);
    SkipShift(path, k, start, false);
    var end := SkipWhile(s, start, false);
    assert s[start..end] == path[k + start..k + end];
    if end > start { SplitShift(path, k, end); }
  }

  /** On plain paths that is the policy at the builder's own names: those of the directory and
      then those of what is added, whatever separators it starts with. */
  lemma PlainChildPolicy(n: Norm, o: Options, calls: seq<Call>, dir: Frag, more: Frag, k: nat)
    requires KeepsNoNul(n) && NoNulPaths(calls) && o.Fits() && NoNul(dir) && NoNul(more)
    requires NodeLen(TreeFor(n, ScopesOf(n, calls))) < 0x1_0000_0000
    requires Plain(dir) && k <= |more| && (forall i :: 0 <= i < k ==> IsSep(more[i])) && Plain(more[k..])
    ensures var b := Prelude(o) + NodeBytes(TreeFor(n, ScopesOf(n, calls)));
            var cursor := Search(n, b, At(TreeStart(b), false), Tokens(dir));
            PolicyAt(b, Search(n, b, cursor, Tokens(Suffix(more)))) == ExpectedAt(ScopesOf(n, calls), Normalize(n, Split(dir, 0) + Split(more, 0)))
  {
    hide NodeBytes, NodeLen, TreeFor, Prelude, TreeStart, Tokens, Search, PolicyAt, ExpectedAt, FindPolicy, Split, Normalize;
    var b, s := Prelude(o) + NodeBytes(TreeFor(n, ScopesOf(n, calls))), Suffix(more);
    SuffixIs(more, k);
    assert dir[0..] == dir;
    PlainTokens(dir, 0);
    SuffixTokens(more, k);
    SplitSkips(more, 0, k);
    SuffixNoNul(more);
    TokensNoNul(dir);
    TokensNoNul(s);
    Resumes(n, b, At(TreeStart(b), false), Tokens(dir), Tokens(s));
    SearchFinds(n, b, TreeStart(b), Tokens(dir) + Tokens(s));
    TokensRead(n, o, calls, Tokens(dir) + Tokens(s));
  }
}
