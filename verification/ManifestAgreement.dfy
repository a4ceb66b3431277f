/** The policy the DLL reads from the bytes is the longest-prefix policy of the scopes that
    were added. */
module ManifestAgreement {
  import opened Words
  import opened ManifestFormat
  import opened ManifestReader
  import opened ManifestPayload
  import opened ManifestTree
  import opened ManifestBuilder
  import opened Scopes

  /** One call on the builder, with the path already canonical. */
  datatype Call = RootScope(mask: Bits, values: Bits)
                | ConeScope(path: Frag, mask: Bits, values: Bits)
                | NodeScope(path: Frag, mask: Bits, values: Bits)

  function ScopeOf(n: Norm, c: Call): Scope {
    match c
    case RootScope(mask, values) => Scope([], false, mask, values)
    case ConeScope(path, mask, values) => Scope(Normalize(n, Split(path, 0)), false, mask, values)
    case NodeScope(path, mask, values) => Scope(Normalize(n, Split(path, 0)), true, mask, values)
  }

  function ScopesOf(n: Norm, calls: seq<Call>): (ss: seq<Scope>)
    ensures |ss| == |calls|
  {
    seq(|calls|, i requires 0 <= i < |calls| => ScopeOf(n, calls[i]))
  }

  ghost predicate NoNulPaths(calls: seq<Call>) {
    forall c <- calls :: !c.RootScope? ==> NoNul(c.path)
  }

  lemma ScopePathGood(n: Norm, path: Frag)
    requires KeepsNoNul(n) && NoNul(path)
    ensures GoodPath(Normalize(n, Split(path, 0)))
  {
    SplitNoNul(path, 0);
    var fs := Split(path, 0);
    forall f <- Normalize(n, fs) ensures f != [] && NoNul(f) {
      var i :| 0 <= i < |fs| && f == n.Fragment(fs[i]);
      assert fs[i] in fs;
    }
  }

  lemma {:induction false} SplitNoNul(path: Frag, i: nat)
    requires i <= |path| && NoNul(path)
    ensures forall f <- Split(path, i) :: NoNul(f)
    decreases |path| - i
  {
    var end := SkipWhile(path, SkipWhile(path, i, true), false);
    if end > SkipWhile(path, i, true) {
      SplitNoNul(path, end);
    }
  }

  lemma ScopesGood(n: Norm, calls: seq<Call>)
    requires KeepsNoNul(n) && NoNulPaths(calls)
    ensures Good(TrieOf(ScopesOf(n, calls)))
  {
    var ss := ScopesOf(n, calls);
    TrieClosed(ss);
    TrieAccumulates(ss);
    forall p <- TrieOf(ss) | p != [] ensures GoodPath(p) {
      var s :| s in ss && p <= s.path;
      var i :| 0 <= i < |ss| && ss[i] == s;
      assert calls[i] in calls;
      if !calls[i].RootScope? {
        ScopePathGood(n, calls[i].path);
      }
      assert GoodPath(s.path);
      forall f <- p ensures f in s.path {}
    }
  }

  /** What the DLL finds for the components of a path in the bytes of a tree of accumulators. */
  lemma ReadsTrie(n: Norm, o: Options, t: Trie, tokens: seq<Frag>)
    requires KeepsNoNul(n) && Good(t) && o.Fits() && forall s <- tokens :: NoNul(s)
    requires NodeLen(FinalTree(n, t)) < 0x1_0000_0000
    ensures var b, p := Prelude(o) + NodeBytes(FinalTree(n, t)), Normalize(n, tokens);
            FindPolicy(n, b, TreeStart(b), tokens)
            == if p in t then Policy(WordOf(NodePolicy(t, p)), true) else Policy(WordOf(NearestCone(t, p)), false)
  {
    hide NodeBytes, NodeLen, TreeOf, WordOf, Prelude, TreeStart, ManifestReader.Walk, FindPolicy, Depth, Within, NodePolicy, NearestCone;
    var b, r := Prelude(o) + NodeBytes(FinalTree(n, t)), FinalTree(n, t);
    TreeStartAgrees(o, NodeBytes(r));
    TreeWellMade(n, t, [], Depth(t));
    assert b[|Prelude(o)|..|Prelude(o)| + NodeLen(r)] == NodeBytes(r);
    FindPolicyAgrees(n, b, |Prelude(o)|, r, tokens);
    WalkAgrees(n, t, [], Depth(t), Normalize(n, tokens));
    assert [] + Normalize(n, tokens) == Normalize(n, tokens);
  }

  lemma {:induction false} TokensNoNul(path: Frag)
    requires NoNul(path)
    ensures forall s <- Tokens(path) :: NoNul(s)
    decreases |path|
  {
    if path != [] {
      var e := TokenEnd(path, 0, true);
      if e < |path| {
        TokensNoNul(path[e + 1..]);
      }
    }
  }

  /** The policy the DLL must enforce for a path: the longest-prefix policy of the scopes. */
  function Expected(n: Norm, calls: seq<Call>, path: Frag): Answer {
    ExpectedAt(ScopesOf(n, calls), Normalize(n, Tokens(path)))
  }

  function ExpectedAt(ss: seq<Scope>, p: NodePath): Answer {
    Policy(WordOf(Effective(ss, p)), Scoped(ss, p))
  }

  /** Whatever components are looked up. */
  lemma TokensRead(n: Norm, o: Options, calls: seq<Call>, tokens: seq<Frag>)
    requires KeepsNoNul(n) && NoNulPaths(calls) && o.Fits() && forall s <- tokens :: NoNul(s)
    requires NodeLen(TreeFor(n, ScopesOf(n, calls))) < 0x1_0000_0000
    ensures var b := Prelude(o) + NodeBytes(TreeFor(n, ScopesOf(n, calls)));
            FindPolicy(n, b, TreeStart(b), tokens) == ExpectedAt(ScopesOf(n, calls), Normalize(n, tokens))
  {
    hide NodeBytes, NodeLen, FinalTree, WordOf, Prelude, TreeStart, FindPolicy, NodePolicy, NearestCone, Effective;
    var ss := ScopesOf(n, calls);
    TrieClosed(ss);
    ScopesGood(n, calls);
    ReadsTrie(n, o, TrieOf(ss), tokens);
    TrieNodeIsEffective(ss, Normalize(n, tokens));
  }

  /** Whatever scopes are added, in whatever order, every lookup in the bytes gives the
      longest-prefix policy of the scope list: the node policy on an exact match, else the
      nearest ancestor's cone policy. Holds for every hash function. */
  lemma EndToEnd(n: Norm, o: Options, calls: seq<Call>, path: Frag)
    requires KeepsNoNul(n) && NoNulPaths(calls) && o.Fits() && NoNul(path)
    requires NodeLen(TreeFor(n, ScopesOf(n, calls))) < 0x1_0000_0000
    ensures var b := Prelude(o) + NodeBytes(TreeFor(n, ScopesOf(n, calls)));
            ReadPolicy(n, b, TreeStart(b), path) == Expected(n, calls, path)
  {
    hide NodeBytes, NodeLen, FinalTree, Prelude, TreeStart, FindPolicy, ExpectedAt, TreeFor;
    TokensNoNul(path);
    TokensRead(n, o, calls, Tokens(path));
  }

  /** A whole launch: make a builder, add the scopes one by one, build. */
  method BuildManifest(n: Norm, o: Options, calls: seq<Call>) returns (payload: seq<byte>)
    requires KeepsNoNul(n) && NoNulPaths(calls) && o.Fits()
    requires NodeLen(TreeFor(n, ScopesOf(n, calls))) < 0x1_0000_0000
    ensures payload == Prelude(o) + NodeBytes(TreeFor(n, ScopesOf(n, calls)))
    ensures |payload| >= 8 && ParsePrelude(payload) == UpToNuls(o)
    ensures forall path: Frag :: NoNul(path) ==>
              ReadPolicy(n, payload, TreeStart(payload), path) == Expected(n, calls, path)
  {
    hide GoodTree, TrieIn, NodeBytes, NodeLen, FinalTree, Add, Good, Prelude, TreeStart, ReadPolicy, Expected, ParsePrelude, UpToNuls;
    var mb := new ManifestBuilder(n, o);
    assert ScopesOf(n, calls[..0]) == [];
    for i := 0 to |calls|
      invariant mb.Valid() && fresh(mb) && mb.norm == n && mb.options == o
      invariant mb.Trie() == TrieOf(ScopesOf(n, calls[..i]))
    {
      ScopesStep(n, calls, i);
      match calls[i]
      case RootScope(mask, values) => mb.AddRootScope(mask, values);
      case ConeScope(path, mask, values) => mb.AddScope(path, mask, values);
      case NodeScope(path, mask, values) => mb.AddNodeScope(path, mask, values);
    }
    assert calls[..|calls|] == calls;
    TrieClosed(ScopesOf(n, calls));
    payload := mb.Build();
    forall path: Frag | NoNul(path)
      ensures ReadPolicy(n, payload, TreeStart(payload), path) == Expected(n, calls, path)
    {
      EndToEnd(n, o, calls, path);
    }
  }

  lemma ScopesStep(n: Norm, calls: seq<Call>, i: nat)
    requires i < |calls|
    ensures calls[i] in calls
    ensures TrieOf(ScopesOf(n, calls[..i + 1])) == Add(TrieOf(ScopesOf(n, calls[..i])), ScopeOf(n, calls[i]))
  {
    var ss := ScopesOf(n, calls[..i + 1]);
    assert ss[..|ss| - 1] == ScopesOf(n, calls[..i]);
  }

  // ---- Where the two tokenizers part ----

  /** No leading separator and no two adjacent ones. */
  predicate Plain(path: Frag) {
    (path != [] ==> !IsSep(path[0])) && forall i :: 0 < i < |path| ==> !(IsSep(path[i - 1]) && IsSep(path[i]))
  }

  ghost predicate KeepsSeps(n: Norm) {
    forall c: WChar :: IsSep(n.up(c)) == IsSep(c)
  }

  predicate HasSep(f: Frag) {
    exists i :: 0 <= i < |f| && IsSep(f[i])
  }

  lemma {:induction false} TokenEndIsNameEnd(path: Frag, i: nat)
    requires i <= |path|
    ensures TokenEnd(path, i, false) == SkipWhile(path, i, false)
    ensures forall k :: i <= k < SkipWhile(path, i, false) ==> !IsSep(path[k])
    decreases |path| - i
  {
    if i < |path| && !IsSep(path[i]) {
      TokenEndIsNameEnd(path, i + 1);
    }
  }

  /** On a plain path the reader tries exactly the names the builder made nodes for. */
  lemma {:induction false} PlainTokens(path: Frag, i: nat)
    requires Plain(path) && i <= |path| && (i < |path| ==> !IsSep(path[i]))
    ensures Tokens(path[i..]) == Split(path, i)
    decreases |path| - i
  {
    hide SkipWhile, TokenEnd, Split, Tokens;
    if i == |path| {
      TokensAtEnd(path);
    } else {
      var e := SkipWhile(path, i, false);
      TokensStep(path, i);
      TokenEndOfName(path, i);
      SplitHere(path, i, e);
      if e < |path| {
        PlainTokens(path, e + 1);
        SplitOverSep(path, e);
      } else {
        TokensAtEnd(path);
      }
    }
  }

  lemma TokensAtEnd(path: Frag)
    ensures Tokens(path[|path|..]) == [] == Split(path, |path|)
  {}

  lemma TokensStep(path: Frag, i: nat)
    requires i < |path|
    ensures var e := TokenEnd(path, i, true);
            Tokens(path[i..]) == [path[i..e]] + (if e == |path| then [] else Tokens(path[e + 1..]))
  {
    hide TokenEnd, Tokens;
    var rest, e := path[i..], TokenEnd(path, i, true);
    TokenEndShift(path, i, 0, true);
    TokensUnfold(rest);
    assert rest[..e - i] == path[i..e];
    assert e < |path| ==> rest[e - i + 1..] == path[e + 1..];
  }

  lemma TokensUnfold(path: Frag)
    requires path != []
    ensures var e := TokenEnd(path, 0, true);
            e <= |path| && Tokens(path) == [path[..e]] + (if e == |path| then [] else Tokens(path[e + 1..]))
  {
    hide TokenEnd;
  }

  lemma {:induction false} TokenEndShift(path: Frag, i: nat, k: nat, lead: bool)
    requires i + k <= |path|
    ensures TokenEnd(path[i..], k, lead) + i == TokenEnd(path, i + k, lead)
    decreases |path| - i - k
  {
    if i + k < |path| {
      TokenEndShift(path, i, k + 1, lead && IsSep(path[i + k]));
    }
  }

  lemma TokenEndOfName(path: Frag, i: nat)
    requires i < |path| && !IsSep(path[i])
    ensures TokenEnd(path, i, true) == SkipWhile(path, i, false) > i
  {
    TokenEndIsNameEnd(path, i + 1);
  }

  lemma SplitHere(path: Frag, i: nat, e: nat)
    requires i < |path| && !IsSep(path[i]) && e == SkipWhile(path, i, false)
    ensures e > i && Split(path, i) == [path[i..e]] + Split(path, e)
    ensures e < |path| ==> IsSep(path[e])
  {
    TokenEndIsNameEnd(path, i);
    assert SkipWhile(path, i, true) == i;
  }

  lemma SplitOverSep(path: Frag, e: nat)
    requires e < |path| && IsSep(path[e])
    ensures Split(path, e) == Split(path, e + 1)
  {}

  lemma {:induction false} SplitHasNoSep(path: Frag, i: nat)
    requires i <= |path|
    ensures forall f <- Split(path, i) :: !HasSep(f)
    decreases |path| - i
  {
    var start := SkipWhile(path, i, true);
    var end := SkipWhile(path, start, false);
    TokenEndIsNameEnd(path, start);
    if end > start {
      SplitHasNoSep(path, end);
    }
  }

  /** On any other path the reader looks for a name with a separator in it. */
  lemma {:induction false} UnplainToken(path: Frag)
    requires !Plain(path)
    ensures exists f <- Tokens(path) :: HasSep(f)
    decreases |path|
  {
    var e := TokenEnd(path, 0, true);
    var f := path[..e];
    assert f in Tokens(path);
    if IsSep(path[0]) {
      assert IsSep(f[0]);
    } else {
      TokenEndOfName(path, 0);
      TokenEndIsNameEnd(path, 0);
      var rest := path[e + 1..];
      assert !Plain(rest);
      UnplainToken(rest);
      assert Tokens(path) == [f] + Tokens(rest);
    }
  }

  /** The policy enforced for a path is the one the same path was given in scopes, for every
      list of scopes, exactly when the path is plain. A scope on a path that starts with a
      separator (a UNC share) is never found again. */
  lemma AgreesIffPlain(n: Norm, path: Frag)
    requires KeepsSeps(n)
    ensures Plain(path) <==>
            forall ss: seq<Scope> :: Effective(ss, Normalize(n, Tokens(path))) == Effective(ss, Normalize(n, Split(path, 0)))
  {
    var read, meant := Normalize(n, Tokens(path)), Normalize(n, Split(path, 0));
    if Plain(path) {
      PlainTokens(path, 0);
      assert path[0..] == path;
    } else {
      UnplainToken(path);
      var f :| f in Tokens(path) && HasSep(f);
      var i :| 0 <= i < |Tokens(path)| && Tokens(path)[i] == f;
      var k :| 0 <= k < |f| && IsSep(f[k]);
      assert HasSep(read[i]) by { assert IsSep(read[i][k]); }
      SplitHasNoSep(path, 0);
      forall j | 0 <= j < |meant| ensures !HasSep(meant[j]) {
        assert Split(path, 0)[j] in Split(path, 0);
        FragmentHasNoSep(n, Split(path, 0)[j]);
      }
      NotBelow(read, meant, i);
      OneScope(meant, read);
    }
  }

  lemma FragmentHasNoSep(n: Norm, f: Frag)
    requires KeepsSeps(n) && !HasSep(f)
    ensures !HasSep(n.Fragment(f))
  {
    forall i | 0 <= i < |f| ensures !IsSep(n.Fragment(f)[i]) {
      assert n.Fragment(f)[i] == n.up(f[i]);
    }
  }

  lemma NotBelow(read: NodePath, meant: NodePath, i: nat)
    requires i < |read| && HasSep(read[i]) && forall j :: 0 <= j < |meant| ==> !HasSep(meant[j])
    ensures !(read <= meant)
  {}

  lemma OneScope(meant: NodePath, read: NodePath)
    requires !(read <= meant)
    ensures exists ss: seq<Scope> :: Effective(ss, read) != Effective(ss, meant)
  {
    var s := Scope(meant, true, {}, {0});
    var ss := [s];
    assert s in ss && Scoped(ss, meant) && !Scoped(ss, read);
    assert 0 in Effective(ss, meant);
    NoConeNoPolicy(ss, read);
  }

  lemma {:induction false} NoConeNoPolicy(ss: seq<Scope>, p: NodePath)
    requires forall s <- ss :: s.exact
    ensures ConeOf(ss, p) == {}
    decreases |p|
  {
    if p != [] {
      NoConeNoPolicy(ss, Parent(p));
    }
    assert ValuesAt(ss, p, false) == {};
  }
}
