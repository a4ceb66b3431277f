/** The blocks that precede the policy tree in a manifest, and where the DLL finds the tree. */
module ManifestPayload {
  import opened Words

  datatype Options = Options(flags: u32, extraFlags: u32, report: seq<WChar>,
                             dllX86: seq<byte>, dllX64: seq<byte>,
                             overlayRoot: seq<WChar>, sourceRoot: seq<WChar>)
  {
    /** Every string is short enough for its length word. */
    ghost predicate Fits() {
      |report| < 0x1000_0000 && |overlayRoot| < 0x1000_0000 && |sourceRoot| < 0x1000_0000
      && |dllX86| < 0x1000_0000 && |dllX64| < 0x1000_0000
    }
  }

  /** Room for `n` bytes rounded up to a word. */
  function RoundUp4(n: nat): (r: nat)
    ensures r % 4 == 0 && n <= r < n + 4
  {
    (n + 3) / 4 * 4
  }

  function Padded(text: seq<byte>): (b: seq<byte>)
    ensures |b| == RoundUp4(|text|) && |b| % 4 == 0
  {
    text + Zeros(RoundUp4(|text|) - |text|)
  }

  /** An optional wide string: its padded byte length, then the NUL-terminated text. */
  function WideBlock(s: seq<WChar>): seq<byte> {
    if s == [] then U32Bytes(0)
    else
      var text := Padded(WideBytes(s) + [0, 0]);
      U32Bytes(Truncate(|text|)) + text
  }

  lemma WideBlockAligned(s: seq<WChar>)
    ensures |WideBlock(s)| % 4 == 0
  {
    hide U32Bytes, Truncate, RoundUp4, Padded, WideBytes;
  }

  /** NUL-terminated and padded to a word. */
  function PaddedAnsi(s: seq<byte>): (b: seq<byte>)
    ensures |b| % 4 == 0 && |s| < |b| <= |s| + 4
  {
    s + Zeros((|s| + 4) / 4 * 4 - |s|)
  }

  function DllBlock(x86: seq<byte>, x64: seq<byte>): seq<byte> {
    var s0, s1 := PaddedAnsi(x86), PaddedAnsi(x64);
    U32Bytes(Truncate(|s0| + |s1|)) + U32Bytes(2) + U32Bytes(0) + U32Bytes(Truncate(|s0|)) + s0 + s1
  }

  /** Everything before the tree. */
  function Prelude(o: Options): seq<byte> {
    U32Bytes(o.flags) + U32Bytes(o.extraFlags) + WideBlock(o.report) + DllBlock(o.dllX86, o.dllX64)
      + WideBlock(o.overlayRoot) + WideBlock(o.sourceRoot)
  }

  /** Whatever the strings, the tree starts on a word boundary. */
  lemma PreludeAligned(o: Options)
    ensures |Prelude(o)| % 4 == 0
  {
    hide U32Bytes, WideBlock, PaddedAnsi, Truncate;
    var s0, s1 := PaddedAnsi(o.dllX86), PaddedAnsi(o.dllX64);
    var d := DllBlock(o.dllX86, o.dllX64);
    WideBlockAligned(o.report);
    WideBlockAligned(o.overlayRoot);
    WideBlockAligned(o.sourceRoot);
    assert |d| == 16 + |s0| + |s1|;
    assert |Prelude(o)| == 8 + |WideBlock(o.report)| + |d| + |WideBlock(o.overlayRoot)| + |WideBlock(o.sourceRoot)|;
    assert |d| % 4 == 0;
  }

  /** The end of the wide block that starts at byte `at`. */
  function AfterWide(b: seq<byte>, at: nat): nat {
    if at + 4 <= |b| then at + 4 + U32At(b, at) else |b|
  }

  /** The end of the block of DLL names: two counts, the offsets, the text. */
  function AfterDlls(b: seq<byte>, at: nat): nat {
    if at + 8 <= |b| then at + 4 * (2 + U32At(b, at + 4)) + U32At(b, at) else |b|
  }

  /** Where the DLL takes the root record to be: flags, report, DLL names, two roots. */
  function TreeStart(b: seq<byte>): nat {
    AfterWide(b, AfterWide(b, AfterDlls(b, AfterWide(b, 8))))
  }

  lemma AfterWideSkips(pre: seq<byte>, s: seq<WChar>, post: seq<byte>)
    requires |s| < 0x1000_0000
    ensures AfterWide(pre + WideBlock(s) + post, |pre|) == |pre| + |WideBlock(s)|
  {
    hide U32Bytes, U32At, WideBytes;
    var v := if s == [] then 0 else Truncate(RoundUp4(2 * |s| + 2));
    var b := pre + WideBlock(s) + post;
    assert WideBlock(s)[..4] == U32Bytes(v);
    assert b[|pre|..|pre| + 4] == WideBlock(s)[..4];
    U32RoundTrip(v, b, |pre|);
  }

  lemma AfterDllsSkips(pre: seq<byte>, x86: seq<byte>, x64: seq<byte>, post: seq<byte>)
    requires |x86| < 0x1000_0000 && |x64| < 0x1000_0000
    ensures AfterDlls(pre + DllBlock(x86, x64) + post, |pre|) == |pre| + |DllBlock(x86, x64)|
  {
    hide U32Bytes, U32At, Zeros, PaddedAnsi;
    var d := DllBlock(x86, x64);
    var b := pre + d + post;
    var v := Truncate(|PaddedAnsi(x86)| + |PaddedAnsi(x64)|);
    assert d[..4] == U32Bytes(v) && d[4..8] == U32Bytes(2);
    assert b[|pre|..|pre| + 4] == d[..4] && b[|pre| + 4..|pre| + 8] == d[4..8];
    U32RoundTrip(v, b, |pre|);
    U32RoundTrip(2, b, |pre| + 4);
  }

  /** The DLL finds the tree exactly where the launcher put it. */
  lemma TreeStartAgrees(o: Options, tree: seq<byte>)
    requires o.Fits()
    ensures TreeStart(Prelude(o) + tree) == |Prelude(o)|
  {
    hide U32Bytes, U32At, WideBlock, DllBlock, AfterWide, AfterDlls;
    var b := Prelude(o) + tree;
    var w0, w1, w2, w3 := WideBlock(o.report), DllBlock(o.dllX86, o.dllX64), WideBlock(o.overlayRoot), WideBlock(o.sourceRoot);
    var f := U32Bytes(o.flags) + U32Bytes(o.extraFlags);
    assert b == f + w0 + (w1 + w2 + w3 + tree);
    AfterWideSkips(f, o.report, w1 + w2 + w3 + tree);
    assert b == (f + w0) + w1 + (w2 + w3 + tree);
    AfterDllsSkips(f + w0, o.dllX86, o.dllX64, w2 + w3 + tree);
    assert b == (f + w0 + w1) + w2 + (w3 + tree);
    AfterWideSkips(f + w0 + w1, o.overlayRoot, w3 + tree);
    assert b == (f + w0 + w1 + w2) + w3 + tree;
    AfterWideSkips(f + w0 + w1 + w2, o.sourceRoot, tree);
  }

  // ---- What the DLL reads from the blocks ----

  /** The wide string at byte `at`, up to its terminator. */
  function WideText(b: seq<byte>, at: nat): seq<WChar>
    decreases |b| - at
  {
    if at + 2 > |b| || WideAt(b, at) == 0 then [] else [WideAt(b, at)] + WideText(b, at + 2)
  }

  /** The string of bytes at byte `at`, up to its terminator. */
  function AnsiText(b: seq<byte>, at: nat): seq<byte>
    decreases |b| - at
  {
    if at >= |b| || b[at] == 0 then [] else [b[at]] + AnsiText(b, at + 1)
  }

  /** The text behind a size word; nothing if the size is 0. */
  function WideBlockText(b: seq<byte>, at: nat): seq<WChar> {
    if at + 4 > |b| || U32At(b, at) == 0 then [] else WideText(b, at + 4)
  }

  /** `GetDllString`: the strings follow the table of their offsets. */
  function GetDllString(b: seq<byte>, at: nat, index: nat): seq<byte> {
    if at + 12 + 4 * index > |b| then []
    else AnsiText(b, at + 4 * (2 + U32At(b, at + 4)) + U32At(b, at + 8 + 4 * index))
  }

  /** `ParseFileAccessManifest` up to the tree: flags, report path, DLL names, the backing root
      and then the source root. */
  function ParsePrelude(b: seq<byte>): Options
    requires |b| >= 8
  {
    var dlls := AfterWide(b, 8);
    var backing := AfterDlls(b, dlls);
    var source := AfterWide(b, backing);
    Options(U32At(b, 0), U32At(b, 4), WideBlockText(b, 8), GetDllString(b, dlls, 0), GetDllString(b, dlls, 1),
            WideBlockText(b, backing), WideBlockText(b, source))
  }

  /** A string as its reader sees it: it ends at the first NUL. */
  function WideUpToNul(s: seq<WChar>): seq<WChar> {
    if s == [] || s[0] == 0 then [] else [s[0]] + WideUpToNul(s[1..])
  }

  function AnsiUpToNul(s: seq<byte>): seq<byte> {
    if s == [] || s[0] == 0 then [] else [s[0]] + AnsiUpToNul(s[1..])
  }

  function UpToNuls(o: Options): Options {
    Options(o.flags, o.extraFlags, WideUpToNul(o.report), AnsiUpToNul(o.dllX86), AnsiUpToNul(o.dllX64),
            WideUpToNul(o.overlayRoot), WideUpToNul(o.sourceRoot))
  }

  lemma {:induction false} WideWhole(s: seq<WChar>)
    ensures WideUpToNul(s) == s <==> 0 !in s
  {
    if s != [] {
      WideWhole(s[1..]);
      assert s == [s[0]] + s[1..];
    }
  }

  lemma {:induction false} AnsiWhole(s: seq<byte>)
    ensures AnsiUpToNul(s) == s <==> 0 !in s
  {
    if s != [] {
      AnsiWhole(s[1..]);
      assert s == [s[0]] + s[1..];
    }
  }

  lemma {:induction false} WideTextReads(pre: seq<byte>, s: seq<WChar>, post: seq<byte>)
    ensures WideText(pre + (WideBytes(s) + [0, 0]) + post, |pre|) == WideUpToNul(s)
    decreases |s|
  {
    var b := pre + (WideBytes(s) + [0, 0]) + post;
    if s == [] {
      assert b[|pre|] == 0 && b[|pre| + 1] == 0;
    } else {
      var c := LowHigh(s[0]);
      assert b[|pre|] == c[0] && b[|pre| + 1] == c[1];
      assert WideAt(b, |pre|) == s[0];
      assert b == (pre + c) + (WideBytes(s[1..]) + [0, 0]) + post;
      WideTextReads(pre + c, s[1..], post);
    }
  }

  lemma {:induction false} AnsiTextReads(pre: seq<byte>, s: seq<byte>, post: seq<byte>)
    ensures AnsiText(pre + (s + [0]) + post, |pre|) == AnsiUpToNul(s)
    decreases |s|
  {
    var b := pre + (s + [0]) + post;
    if s == [] {
      assert b[|pre|] == 0;
    } else {
      assert b[|pre|] == s[0];
      assert b == (pre + [s[0]]) + (s[1..] + [0]) + post;
      AnsiTextReads(pre + [s[0]], s[1..], post);
    }
  }

  lemma WideBlockIs(s: seq<WChar>) returns (v: u32, pad: seq<byte>)
    requires s != [] && |s| < 0x1000_0000
    ensures v > 0 && WideBlock(s) == U32Bytes(v) + (WideBytes(s) + [0, 0]) + pad
  {
    hide U32Bytes, WideBytes, Zeros;
    var text := WideBytes(s) + [0, 0];
    v, pad := Truncate(RoundUp4(|text|)), Zeros(RoundUp4(|text|) - |text|);
    assert U32Bytes(v) + (text + pad) == U32Bytes(v) + text + pad;
  }

  lemma Apart(pre: seq<byte>, w: seq<byte>, x: seq<byte>, pad: seq<byte>, post: seq<byte>)
    ensures var b := pre + (w + x + pad) + post;
            b[|pre|..|pre| + |w|] == w && b == (pre + w) + x + (pad + post)
  {}

  lemma WideBlockReads(pre: seq<byte>, s: seq<WChar>, post: seq<byte>)
    requires |s| < 0x1000_0000
    ensures WideBlockText(pre + WideBlock(s) + post, |pre|) == WideUpToNul(s)
  {
    hide *;
    if s == [] {
      NoBlock();
      Apart(pre, U32Bytes(0), [], [], post);
      assert U32Bytes(0) + [] + [] == U32Bytes(0);
      U32RoundTrip(0, pre + WideBlock(s) + post, |pre|);
      BlockText(pre + WideBlock(s) + post, |pre|);
    } else {
      var v, pad := WideBlockIs(s);
      Apart(pre, U32Bytes(v), WideBytes(s) + [0, 0], pad, post);
      U32RoundTrip(v, pre + WideBlock(s) + post, |pre|);
      WideTextReads(pre + U32Bytes(v), s, pad + post);
      BlockText(pre + WideBlock(s) + post, |pre|);
    }
  }

  lemma NoBlock()
    ensures WideBlock([]) == U32Bytes(0) && WideUpToNul([]) == []
  {}

  lemma BlockText(b: seq<byte>, at: nat)
    requires at + 4 <= |b|
    ensures WideBlockText(b, at) == if U32At(b, at) == 0 then [] else WideText(b, at + 4)
  {
    hide WideText, U32At;
  }

  lemma PaddedReads(pre: seq<byte>, s: seq<byte>, post: seq<byte>)
    ensures AnsiText(pre + PaddedAnsi(s) + post, |pre|) == AnsiUpToNul(s)
  {
    var pad := Zeros(|PaddedAnsi(s)| - |s| - 1);
    assert PaddedAnsi(s) == (s + [0]) + pad;
    assert pre + PaddedAnsi(s) + post == pre + (s + [0]) + (pad + post);
    AnsiTextReads(pre, s, pad + post);
  }

  /** The words at the start of the block of DLL names. */
  lemma DllWords(pre: seq<byte>, x86: seq<byte>, x64: seq<byte>, post: seq<byte>)
    requires |x86| < 0x1000_0000 && |x64| < 0x1000_0000
    ensures var b := pre + DllBlock(x86, x64) + post;
            && |DllBlock(x86, x64)| >= 16
            && U32At(b, |pre| + 4) == 2 && U32At(b, |pre| + 8) == 0 && U32At(b, |pre| + 12) == |PaddedAnsi(x86)|
  {
    hide U32Bytes, U32At, Zeros, PaddedAnsi;
    var d := DllBlock(x86, x64);
    var b := pre + d + post;
    var v := |PaddedAnsi(x86)|;
    assert d[4..8] == U32Bytes(2) && d[8..12] == U32Bytes(0) && d[12..16] == U32Bytes(v);
    assert b[|pre| + 4..|pre| + 8] == d[4..8] && b[|pre| + 8..|pre| + 12] == d[8..12] && b[|pre| + 12..|pre| + 16] == d[12..16];
    U32RoundTrip(2, b, |pre| + 4);
    U32RoundTrip(0, b, |pre| + 8);
    U32RoundTrip(v, b, |pre| + 12);
  }

  lemma DllBlockIs(x86: seq<byte>, x64: seq<byte>) returns (h: seq<byte>)
    ensures |h| == 16 && DllBlock(x86, x64) == h + PaddedAnsi(x86) + PaddedAnsi(x64)
  {
    hide U32Bytes, PaddedAnsi;
    var s0, s1 := PaddedAnsi(x86), PaddedAnsi(x64);
    h := U32Bytes(Truncate(|s0| + |s1|)) + U32Bytes(2) + U32Bytes(0) + U32Bytes(Truncate(|s0|));
  }

  lemma Nested(pre: seq<byte>, h: seq<byte>, s0: seq<byte>, s1: seq<byte>, post: seq<byte>)
    ensures var b := pre + (h + s0 + s1) + post;
            b == (pre + h) + s0 + (s1 + post) && b == (pre + h + s0) + s1 + post
  {}

  lemma DllBlockReads(pre: seq<byte>, x86: seq<byte>, x64: seq<byte>, post: seq<byte>)
    requires |x86| < 0x1000_0000 && |x64| < 0x1000_0000
    ensures var b := pre + DllBlock(x86, x64) + post;
            GetDllString(b, |pre|, 0) == AnsiUpToNul(x86) && GetDllString(b, |pre|, 1) == AnsiUpToNul(x64)
  {
    hide U32Bytes, U32At, Zeros, PaddedAnsi, AnsiText, DllBlock, AnsiUpToNul;
    var s0, s1 := PaddedAnsi(x86), PaddedAnsi(x64);
    var h := DllBlockIs(x86, x64);
    DllWords(pre, x86, x64, post);
    Nested(pre, h, s0, s1, post);
    PaddedReads(pre + h, x86, s1 + post);
    PaddedReads(pre + h + s0, x64, post);
  }

  lemma FlagsRead(o: Options, tree: seq<byte>)
    ensures var b := Prelude(o) + tree;
            |b| >= 8 && U32At(b, 0) == o.flags && U32At(b, 4) == o.extraFlags
  {
    hide U32Bytes, U32At, WideBlock, DllBlock;
    var b := Prelude(o) + tree;
    assert b[0..4] == U32Bytes(o.flags) && b[4..8] == U32Bytes(o.extraFlags);
    U32RoundTrip(o.flags, b, 0);
    U32RoundTrip(o.extraFlags, b, 4);
  }

  /** The DLL reads back the flags, the report path, each DLL name and each root as they were
      set, up to the first NUL in a string. */
  lemma PreludeReads(o: Options, tree: seq<byte>)
    requires o.Fits()
    ensures |Prelude(o) + tree| >= 8 && ParsePrelude(Prelude(o) + tree) == UpToNuls(o)
  {
    hide U32Bytes, U32At, WideBlock, DllBlock, AfterWide, AfterDlls, WideBlockText, GetDllString, AnsiUpToNul, WideUpToNul;
    var b := Prelude(o) + tree;
    var w0, w1, w2, w3 := WideBlock(o.report), DllBlock(o.dllX86, o.dllX64), WideBlock(o.overlayRoot), WideBlock(o.sourceRoot);
    var f := U32Bytes(o.flags) + U32Bytes(o.extraFlags);
    FlagsRead(o, tree);
    assert b == f + w0 + (w1 + w2 + w3 + tree);
    AfterWideSkips(f, o.report, w1 + w2 + w3 + tree);
    WideBlockReads(f, o.report, w1 + w2 + w3 + tree);
    assert b == (f + w0) + w1 + (w2 + w3 + tree);
    AfterDllsSkips(f + w0, o.dllX86, o.dllX64, w2 + w3 + tree);
    DllBlockReads(f + w0, o.dllX86, o.dllX64, w2 + w3 + tree);
    assert b == (f + w0 + w1) + w2 + (w3 + tree);
    AfterWideSkips(f + w0 + w1, o.overlayRoot, w3 + tree);
    WideBlockReads(f + w0 + w1, o.overlayRoot, w3 + tree);
    assert b == (f + w0 + w1 + w2) + w3 + tree;
    WideBlockReads(f + w0 + w1 + w2, o.sourceRoot, tree);
  }

  /** So it reads back everything exactly when no string holds a NUL. */
  lemma PreludeRoundTrip(o: Options, tree: seq<byte>)
    requires o.Fits()
    ensures |Prelude(o) + tree| >= 8
    ensures ParsePrelude(Prelude(o) + tree) == o
            <==> 0 !in o.report && 0 !in o.dllX86 && 0 !in o.dllX64 && 0 !in o.overlayRoot && 0 !in o.sourceRoot
  {
    hide Prelude, ParsePrelude;
    PreludeReads(o, tree);
    WideWhole(o.report);
    AnsiWhole(o.dllX86);
    AnsiWhole(o.dllX64);
    WideWhole(o.overlayRoot);
    WideWhole(o.sourceRoot);
  }
}
