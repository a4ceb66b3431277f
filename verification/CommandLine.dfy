/** The child's command line: quoting, and the parser that undoes it. */
module CommandLine {

  const QUOTE := '\"'
  const SLASH := '\\'

  predicate Blank(c: char) {
    c == ' ' || c == '\t'
  }

  /** Characters that make an argument need quotes. */
  predicate Special(c: char) {
    c == ' ' || c == '\t' || c == '\n' || c == '\U{000B}' || c == QUOTE
  }

  function Slashes(n: nat): (s: string)
    ensures |s| == n && forall i :: 0 <= i < n ==> s[i] == SLASH
  {
    seq(n, _ => SLASH)
  }

  // ---- The parser ----

  /** The rest of one argument after `n` pending backslashes, by the rules of
      `CommandLineToArgvW`, and the text after it: before a quotation mark each pair of
      backslashes is one, and an odd one makes the mark literal; else they stand for themselves. */
  function ScanArg(t: string, n: nat, quoted: bool, arg: string): (r: (string, string))
    ensures |r.1| <= |t|
    decreases |t|
  {
    if t == [] then (arg + Slashes(n), [])
    else if t[0] == SLASH then ScanArg(t[1..], n + 1, quoted, arg)
    else if t[0] == QUOTE then
      if n % 2 == 0 then ScanArg(t[1..], 0, !quoted, arg + Slashes(n / 2))
      else ScanArg(t[1..], 0, quoted, arg + Slashes(n / 2) + [QUOTE])
    else if !quoted && Blank(t[0]) then (arg + Slashes(n), t)
    else ScanArg(t[1..], 0, quoted, arg + Slashes(n) + [t[0]])
  }

  /** The arguments after the program. */
  function ScanArgs(t: string): seq<string>
    decreases |t|
  {
    if t == [] then []
    else if Blank(t[0]) then ScanArgs(t[1..])
    else
      var r := if t[0] == SLASH then ScanArg(t[1..], 1, false, [])
               else if t[0] == QUOTE then ScanArg(t[1..], 0, true, [])
               else ScanArg(t[1..], 0, false, [t[0]]);
      [r.0] + ScanArgs(r.1)
  }

  /** The text up to the first character that ends it. */
  function UpTo(t: string, ends: char -> bool): (r: string)
    ensures r <= t && (forall c <- r :: !ends(c)) && (|r| < |t| ==> ends(t[|r|]))
  {
    if t == [] || ends(t[0]) then [] else [t[0]] + UpTo(t[1..], ends)
  }

  /** The program name knows no backslash rule: in quotation marks it ends at the next one, else
      at white space. */
  function Parse(line: string): seq<string> {
    if line == [] then []
    else if line[0] == QUOTE then
      var p := UpTo(line[1..], c => c == QUOTE);
      [p] + ScanArgs(if |p| + 2 <= |line| then line[|p| + 2..] else [])
    else
      var p := UpTo(line, Blank);
      [p] + ScanArgs(line[|p|..])
  }

  // ---- The printer ----

  /** The text between the quotation marks, after `n` pending backslashes. */
  function Body(s: string, n: nat): string {
    if s == [] then Slashes(2 * n)
    else if s[0] == SLASH then Body(s[1..], n + 1)
    else if s[0] == QUOTE then Slashes(2 * n + 1) + [QUOTE] + Body(s[1..], 0)
    else Slashes(n) + [s[0]] + Body(s[1..], 0)
  }

  predicate NeedsEscape(s: string) {
    exists c <- s :: Special(c)
  }

  function Escaped(s: string): string {
    if s == [] then [QUOTE, QUOTE]
    else if NeedsEscape(s) then [QUOTE] + Body(s, 0) + [QUOTE]
    else s
  }

  /** The position after the last separator. */
  function BaseStart(path: string): (i: nat)
    ensures i <= |path|
  {
    if path == [] then 0
    else if path[|path| - 1] == SLASH || path[|path| - 1] == '/' then |path|
    else BaseStart(path[..|path| - 1])
  }

  const CMD_EXE := "cmd.exe"

  predicate IsCmdExe(tool: string, lower: char -> char) {
    var base := tool[BaseStart(tool)..];
    |base| == |CMD_EXE| && forall k :: 0 <= k < |base| ==> lower(base[k]) == CMD_EXE[k]
  }

  /** The name after the last separator is cmd.exe in either case of its letters. */
  predicate NamesCmd(tool: string, lower: char -> char) {
    |tool| >= 7 && var k := |tool| - 7;
                   && (k == 0 || tool[k - 1] == '\\' || tool[k - 1] == '/')
                   && (forall i :: k <= i < |tool| ==> tool[i] != '\\' && tool[i] != '/')
                   && (forall i :: 0 <= i < 7 ==> lower(tool[k + i]) == "cmd.exe"[i])
  }

  lemma {:induction false} BaseStartIs(path: string)
    ensures var k := BaseStart(path);
            && (k == 0 || path[k - 1] == '\\' || path[k - 1] == '/')
            && forall i :: k <= i < |path| ==> path[i] != '\\' && path[i] != '/'
  {
    if path != [] && path[|path| - 1] != '\\' && path[|path| - 1] != '/' {
      BaseStartIs(path[..|path| - 1]);
    }
  }

  lemma IsCmdIff(tool: string, lower: char -> char)
    ensures IsCmdExe(tool, lower) <==> NamesCmd(tool, lower)
  {
    var k := BaseStart(tool);
    BaseStartIs(tool);
    if IsCmdExe(tool, lower) {
      forall i | 0 <= i < 7 ensures lower(tool[k + i]) == "cmd.exe"[i] {
        assert tool[k..][i] == tool[k + i];
      }
    }
  }

  /** The arguments after the program, each after a space. */
  function Tail(args: seq<string>, verbatim: bool): string {
    if args == [] then [] else [' '] + (if verbatim then args[0] else Escaped(args[0])) + Tail(args[1..], verbatim)
  }

  function CommandLineOf(args: seq<string>, lower: char -> char): string {
    if args == [] then [] else Escaped(args[0]) + Tail(args[1..], IsCmdExe(args[0], lower))
  }

  // ---- Printing and parsing ----

  lemma {:induction false} ScanSlashes(k: nat, t: string, n: nat, quoted: bool, arg: string)
    ensures ScanArg(Slashes(k) + t, n, quoted, arg) == ScanArg(t, n + k, quoted, arg)
    decreases k
  {
    if k == 0 {
      assert Slashes(0) + t == t;
    } else {
      assert (Slashes(k) + t)[1..] == Slashes(k - 1) + t;
      ScanSlashes(k - 1, t, n + 1, quoted, arg);
    }
  }

  /** The parser undoes the escapes up to the closing quotation mark. */
  lemma {:induction false} ScanBody(s: string, n: nat, arg: string, rest: string)
    ensures ScanArg(Body(s, n) + ([QUOTE] + rest), 0, true, arg) == ScanArg(rest, 0, false, arg + Slashes(n) + s)
  {
    var tail := [QUOTE] + rest;
    assert tail[1..] == rest;
    if s == [] {
      ScanSlashes(2 * n, tail, 0, true, arg);
      assert arg + Slashes(n) + s == arg + Slashes(n);
    } else if s[0] == SLASH {
      ScanBody(s[1..], n + 1, arg, rest);
      assert arg + Slashes(n + 1) + s[1..] == arg + Slashes(n) + s;
    } else {
      ScanBodyChar(s, n, arg, tail);
      ScanBody(s[1..], 0, arg + Slashes(n) + [s[0]], rest);
      assert arg + Slashes(n) + [s[0]] + Slashes(0) + s[1..] == arg + Slashes(n) + s;
    }
  }

  lemma ScanBodyChar(s: string, n: nat, arg: string, tail: string)
    requires s != [] && s[0] != SLASH
    ensures ScanArg(Body(s, n) + tail, 0, true, arg) == ScanArg(Body(s[1..], 0) + tail, 0, true, arg + Slashes(n) + [s[0]])
  {
    hide Slashes, ScanArg;
    var k := if s[0] == QUOTE then 2 * n + 1 else n;
    var after := Body(s[1..], 0) + tail;
    assert Body(s, n) + tail == Slashes(k) + ([s[0]] + after);
    ScanSlashes(k, [s[0]] + after, 0, true, arg);
    ScanQuotedChar(s[0], after, n, k, arg);
  }

  lemma ScanQuotedChar(c: char, t: string, n: nat, k: nat, arg: string)
    requires c != SLASH && k == if c == QUOTE then 2 * n + 1 else n
    ensures ScanArg([c] + t, k, true, arg) == ScanArg(t, 0, true, arg + Slashes(n) + [c])
  {
    hide Slashes;
    assert ([c] + t)[1..] == t;
  }

  /** An argument with nothing special in it is read as it stands, backslashes and all. */
  lemma {:induction false} ScanPlain(s: string, n: nat, arg: string, rest: string)
    requires !NeedsEscape(s) && (rest == [] || Blank(rest[0]))
    ensures ScanArg(s + rest, n, false, arg) == (arg + Slashes(n) + s, rest)
    decreases |s|
  {
    if s == [] {
      assert s + rest == rest && arg + Slashes(n) + s == arg + Slashes(n);
    } else {
      assert (s + rest)[1..] == s[1..] + rest && s[0] in s && forall c <- s[1..] :: c in s;
      if s[0] == SLASH {
        ScanPlain(s[1..], n + 1, arg, rest);
        assert arg + Slashes(n + 1) + s[1..] == arg + Slashes(n) + s;
      } else {
        assert !Special(s[0]);
        ScanPlain(s[1..], 0, arg + Slashes(n) + [s[0]], rest);
        assert arg + Slashes(n) + [s[0]] + Slashes(0) + s[1..] == arg + Slashes(n) + s;
      }
    }
  }

  lemma ScanEscaped(s: string, rest: string)
    requires rest == [] || Blank(rest[0])
    ensures ScanArgs(Escaped(s) + rest) == [s] + ScanArgs(rest)
  {
    var e := Escaped(s);
    if s == [] || NeedsEscape(s) {
      assert e + rest == [QUOTE] + (Body(s, 0) + ([QUOTE] + rest));
      assert (e + rest)[1..] == Body(s, 0) + ([QUOTE] + rest);
      ScanBody(s, 0, [], rest);
      assert [] + Slashes(0) + s == s;
      ScanPlain([], 0, s, rest);
      assert [] + rest == rest && s + Slashes(0) + [] == s;
    } else {
      assert s[0] in s && !Special(s[0]);
      ScanPlain(s, 0, [], rest);
      assert [] + Slashes(0) + s == s && (s + rest)[1..] == s[1..] + rest;
      assert [] + Slashes(0) + [s[0]] == [s[0]];
    }
  }

  lemma {:induction false} ScanTail(args: seq<string>)
    ensures ScanArgs(Tail(args, false)) == args
  {
    if args != [] {
      var rest := Tail(args[1..], false);
      assert Tail(args, false)[1..] == Escaped(args[0]) + rest;
      ScanEscaped(args[0], rest);
      ScanTail(args[1..]);
    }
  }

  lemma {:induction false} UpToIs(p: string, rest: string, ends: char -> bool)
    requires (forall c <- p :: !ends(c)) && (rest == [] || ends(rest[0]))
    ensures UpTo(p + rest, ends) == p
  {
    if p == [] {
      assert p + rest == rest;
    } else {
      assert (p + rest)[1..] == p[1..] + rest && p[0] in p && forall c <- p[1..] :: c in p;
      UpToIs(p[1..], rest, ends);
    }
  }

  /** Without quotation marks only trailing backslashes are changed. */
  lemma {:induction false} BodyIs(s: string, n: nat)
    requires QUOTE !in s
    ensures QUOTE !in Body(s, n)
    ensures Body(s, n) == Slashes(n) + s <==> if s == [] then n == 0 else s[|s| - 1] != SLASH
  {
    if s == [] {
      assert Body(s, n) == Slashes(n) + s ==> |Slashes(2 * n)| == |Slashes(n)|;
    } else {
      assert s[0] in s && forall c <- s[1..] :: c in s;
      if s[0] == SLASH {
        BodyIs(s[1..], n + 1);
        assert Slashes(n) + s == Slashes(n + 1) + s[1..];
      } else {
        BodyIs(s[1..], 0);
        assert Slashes(0) + s[1..] == s[1..];
        SameAfter(Slashes(n) + [s[0]], Body(s[1..], 0), s[1..]);
        assert Slashes(n) + [s[0]] + s[1..] == Slashes(n) + s;
      }
    }
  }

  lemma SameAfter(a: string, x: string, y: string)
    ensures a + x == a + y <==> x == y
  {
    if a + x == a + y {
      assert (a + x)[|a|..] == x && (a + y)[|a|..] == y;
    }
  }

  /** The program's name comes back unless it holds a quotation mark, or ends in a backslash
      and needs quotes. */
  predicate PlainProgram(program: string) {
    QUOTE !in program && !(NeedsEscape(program) && program[|program| - 1] == SLASH)
  }

  lemma QuotedProgram(program: string, rest: string)
    requires program == [] || NeedsEscape(program)
    ensures var argv := Parse(Escaped(program) + rest);
            && argv != []
            && (QUOTE !in program ==> argv[1..] == ScanArgs(rest))
            && (argv[0] == program <==> PlainProgram(program))
  {
    hide Body, Parse, ScanArgs, UpTo;
    var body := Body(program, 0);
    assert Body([], 0) == [] by { BodyIs([], 0); }
    assert Escaped(program) + rest == [QUOTE] + (body + ([QUOTE] + rest));
    QuotedParse(body, rest);
    if QUOTE !in program {
      BodyIs(program, 0);
      assert Slashes(0) + program == program;
    }
  }

  lemma QuotedParse(body: string, rest: string)
    ensures var argv := Parse([QUOTE] + (body + ([QUOTE] + rest)));
            && argv != [] && QUOTE !in argv[0]
            && (QUOTE !in body ==> argv == [body] + ScanArgs(rest))
  {
    hide ScanArgs, UpTo;
    var line := [QUOTE] + (body + ([QUOTE] + rest));
    assert line[1..] == body + ([QUOTE] + rest);
    if QUOTE !in body {
      UpToIs(body, [QUOTE] + rest, c => c == QUOTE);
      assert line[|body| + 2..] == rest;
    }
  }

  lemma BareProgram(program: string, rest: string)
    requires program != [] && !NeedsEscape(program) && (rest == [] || Blank(rest[0]))
    ensures Parse(Escaped(program) + rest) == [program] + ScanArgs(rest) && PlainProgram(program)
  {
    forall c <- program ensures !Blank(c) && c != QUOTE { assert !Special(c); }
    UpToIs(program, rest, Blank);
    assert program[0] in program && (program + rest)[|program|..] == rest;
  }

  // ---- A quotation mark in the program ----

  function Ink(s: string): nat {
    if s == [] then 0 else (if Blank(s[0]) then 0 else 1) + Ink(s[1..])
  }

  function InkOf(args: seq<string>): nat {
    if args == [] then 0 else Ink(args[0]) + InkOf(args[1..])
  }

  /** How many characters other than blanks the parser makes of a text, with `n` backslashes
      pending: the quotation marks do not matter. */
  function InkOut(t: string, n: nat): nat {
    if t == [] then n
    else if t[0] == SLASH then InkOut(t[1..], n + 1)
    else if t[0] == QUOTE then n / 2 + n % 2 + InkOut(t[1..], 0)
    else n + (if Blank(t[0]) then 0 else 1) + InkOut(t[1..], 0)
  }

  lemma {:induction false} InkConcat(s: string, t: string)
    ensures Ink(s + t) == Ink(s) + Ink(t)
  {
    if s == [] {
      assert s + t == t;
    } else {
      assert (s + t)[1..] == s[1..] + t;
      InkConcat(s[1..], t);
    }
  }

  lemma {:induction false} InkSlashes(n: nat)
    ensures Ink(Slashes(n)) == n
  {
    if n > 0 {
      assert Slashes(n)[1..] == Slashes(n - 1);
      InkSlashes(n - 1);
    }
  }

  lemma InkMore(arg: string, n: nat, s: string)
    ensures Ink(arg + Slashes(n) + s) == Ink(arg) + n + Ink(s)
    ensures Ink(arg + Slashes(n)) == Ink(arg) + n
  {
    InkConcat(arg + Slashes(n), s);
    InkConcat(arg, Slashes(n));
    InkSlashes(n);
  }

  lemma {:induction false} ScanArgInk(t: string, n: nat, quoted: bool, arg: string)
    ensures var (a, rest) := ScanArg(t, n, quoted, arg);
            Ink(a) + InkOut(rest, 0) == Ink(arg) + InkOut(t, n)
    decreases |t|
  {
    hide Slashes, Ink;
    InkMore(arg, n, []);
    if t != [] {
      InkMore(arg, n, [t[0]]);
      InkMore(arg, n / 2, [QUOTE]);
      assert Ink([t[0]]) == (if Blank(t[0]) then 0 else 1) && Ink([QUOTE]) == 1 by { OneInk(t[0]); OneInk(QUOTE); }
      if t[0] == SLASH {
        ScanArgInk(t[1..], n + 1, quoted, arg);
      } else if t[0] == QUOTE {
        ScanArgInk(t[1..], 0, if n % 2 == 0 then !quoted else quoted, if n % 2 == 0 then arg + Slashes(n / 2) else arg + Slashes(n / 2) + [QUOTE]);
      } else if quoted || !Blank(t[0]) {
        ScanArgInk(t[1..], 0, quoted, arg + Slashes(n) + [t[0]]);
      } else {
        BlankInk(t);
      }
    }
  }

  lemma OneInk(c: char)
    ensures Ink([c]) == if Blank(c) then 0 else 1
  {
    assert Ink([c][1..]) == 0;
  }

  lemma BlankInk(t: string)
    requires t != [] && Blank(t[0])
    ensures InkOut(t, 0) == InkOut(t[1..], 0)
    ensures forall n: nat :: InkOut(t, n) == n + InkOut(t, 0)
  {}

  lemma {:induction false} ScanArgsInk(t: string)
    ensures InkOf(ScanArgs(t)) == InkOut(t, 0)
    decreases |t|
  {
    hide ScanArg, Ink;
    if t != [] {
      if Blank(t[0]) {
        ScanArgsInk(t[1..]);
      } else {
        OneInk(t[0]);
        assert Ink([]) == 0 by { InkMore([], 0, []); InkConcat([], []); }
        var r := if t[0] == SLASH then ScanArg(t[1..], 1, false, [])
                 else if t[0] == QUOTE then ScanArg(t[1..], 0, true, [])
                 else ScanArg(t[1..], 0, false, [t[0]]);
        ScanArgInk(t[1..], if t[0] == SLASH then 1 else 0, t[0] == QUOTE, if t[0] == SLASH || t[0] == QUOTE then [] else [t[0]]);
        ScanArgsInk(r.1);
        assert ([r.0] + ScanArgs(r.1))[1..] == ScanArgs(r.1);
      }
    }
  }

  lemma {:induction false} BodyQuote(s: string, n: nat) returns (x: string, after: string)
    requires QUOTE in s
    ensures QUOTE !in x && Body(s, n) == x + ([QUOTE] + Body(after, 0))
  {
    if s[0] == QUOTE {
      x, after := Slashes(2 * n + 1), s[1..];
    } else if s[0] == SLASH {
      x, after := BodyQuote(s[1..], n + 1);
    } else {
      var y: string;
      y, after := BodyQuote(s[1..], 0);
      x := Slashes(n) + [s[0]] + y;
    }
  }

  lemma BodyInk(s: string, rest: string)
    ensures InkOut(Body(s, 0) + ([QUOTE] + rest), 0) == Ink(s) + InkOut(rest, 0)
  {
    hide ScanArg, Body, InkOut;
    ScanBody(s, 0, [], rest);
    assert [] + Slashes(0) + s == s;
    ScanArgInk(Body(s, 0) + ([QUOTE] + rest), 0, true, []);
    ScanArgInk(rest, 0, false, s);
  }

  /** A text of blanks needs no escapes, and the parser passes over it. */
  lemma {:induction false} Blanks(s: string, t: string)
    requires Ink(s) == 0
    ensures Body(s, 0) == s && ScanArgs(s + t) == ScanArgs(t)
  {
    if s == [] {
      assert s + t == t;
    } else {
      Blanks(s[1..], t);
      assert Slashes(0) + [s[0]] + s[1..] == s && (s + t)[1..] == s[1..] + t;
    }
  }

  lemma {:induction false} ScanExtends(t: string, n: nat, quoted: bool, arg: string)
    ensures arg <= ScanArg(t, n, quoted, arg).0
    decreases |t|
  {
    if t != [] {
      if t[0] == SLASH {
        ScanExtends(t[1..], n + 1, quoted, arg);
      } else if t[0] == QUOTE {
        ScanExtends(t[1..], 0, if n % 2 == 0 then !quoted else quoted, if n % 2 == 0 then arg + Slashes(n / 2) else arg + Slashes(n / 2) + [QUOTE]);
      } else if quoted || !Blank(t[0]) {
        ScanExtends(t[1..], 0, quoted, arg + Slashes(n) + [t[0]]);
      }
    }
  }

  /** Read with quotation turned inside out, the first argument starts with the space before
      it, and is that space alone if it is quoted itself and starts with one. */
  lemma InsideOut(a: string, rest: string)
    ensures var r := ScanArg([' '] + (Escaped(a) + rest), 0, true, []);
            && " " <= r.0
            && (" " <= a ==> r == (" ", Body(a, 0) + ([QUOTE] + rest)))
  {
    hide Escaped, Body, NeedsEscape;
    var t := Escaped(a) + rest;
    assert ([' '] + t)[1..] == t && [] + Slashes(0) + [' '] == " ";
    ScanExtends(t, 0, true, " ");
    if " " <= a {
      InsideQuotes(a, rest);
    }
  }

  lemma InsideQuotes(a: string, rest: string)
    requires " " <= a
    ensures ScanArg(Escaped(a) + rest, 0, true, " ") == (" ", Body(a, 0) + ([QUOTE] + rest))
  {
    hide ScanArg, Body;
    assert a[0] in a && Special(a[0]);
    var u := Body(a, 0) + ([QUOTE] + rest);
    assert Escaped(a) + rest == [QUOTE] + u;
    StartsBlank(a);
    ScanQuoteThenBlank(u);
  }

  lemma StartsBlank(a: string)
    requires " " <= a
    ensures " " <= Body(a, 0)
  {
    assert Body(a, 0) == Slashes(0) + [a[0]] + Body(a[1..], 0);
  }

  lemma ScanQuoteThenBlank(u: string)
    requires u != [] && u[0] == ' '
    ensures ScanArg([QUOTE] + u, 0, true, " ") == (" ", u)
  {
    assert ([QUOTE] + u)[1..] == u && " " + Slashes(0) == " ";
  }

  /** With one quotation mark too many in front, no list of arguments is read as itself. */
  lemma {:induction false} NeverAligned(args: seq<string>)
    ensures ScanArgs([QUOTE] + Tail(args, false)) != args
  {
    hide Body, Escaped, ScanArg;
    var t := [QUOTE] + Tail(args, false);
    assert t[1..] == Tail(args, false);
    if args != [] {
      var a, rest := args[0], Tail(args[1..], false);
      assert Tail(args, false) == [' '] + (Escaped(a) + rest);
      InsideOut(a, rest);
      var r := ScanArg(t[1..], 0, true, []);
      if r.0 == a {
        NeverAligned(args[1..]);
        assert Ink(" ") == 0 by { OneInk(' '); }
        Blanks(" ", [QUOTE] + rest);
        assert ScanArgs(r.1) == ScanArgs([QUOTE] + rest);
        assert ([r.0] + ScanArgs(r.1))[1..] == ScanArgs(r.1);
      }
    }
  }

  /** So a quotation mark in the program's path always gives the child other arguments than it
      was sent. */
  lemma ArgumentsShift(program: string, args: seq<string>)
    requires QUOTE in program
    ensures var argv := Parse(Escaped(program) + Tail(args, false));
            argv != [] && argv[0] != program && argv[1..] != args
  {
    hide Body, Parse, ScanArgs, UpTo, Tail, Ink, InkOut;
    assert Special(QUOTE) && NeedsEscape(program);
    var rest := Tail(args, false);
    var x, after := BodyQuote(program, 0);
    assert Escaped(program) + rest == [QUOTE] + (x + ([QUOTE] + (Body(after, 0) + ([QUOTE] + rest))));
    QuotedParse(x, Body(after, 0) + ([QUOTE] + rest));
    ScanArgsInk(Body(after, 0) + ([QUOTE] + rest));
    BodyInk(after, rest);
    ScanArgsInk(rest);
    ScanTail(args);
    if Ink(after) == 0 {
      Blanks(after, [QUOTE] + rest);
      NeverAligned(args);
    }
  }

  // ---- The round trip ----

  /** For every program other than cmd.exe: the child gets exactly the arguments after it if
      and only if the program's own path holds no quotation mark. And it gets back the whole
      list, program included, exactly when the program's path is plain. */
  lemma RoundTrip(args: seq<string>, lower: char -> char)
    requires args != [] && !NamesCmd(args[0], lower)
    ensures var argv := Parse(CommandLineOf(args, lower));
            && argv != []
            && (argv[1..] == args[1..] <==> QUOTE !in args[0])
            && (argv == args <==> PlainProgram(args[0]))
  {
    hide IsCmdExe, NamesCmd, Parse, Escaped, NeedsEscape, ScanArgs, Tail;
    IsCmdIff(args[0], lower);
    var rest := Tail(args[1..], false);
    ScanTail(args[1..]);
    TailStarts(args[1..]);
    if QUOTE in args[0] {
      ArgumentsShift(args[0], args[1..]);
    } else if args[0] == [] || NeedsEscape(args[0]) {
      QuotedProgram(args[0], rest);
    } else {
      BareProgram(args[0], rest);
    }
    SameArgs(Parse(CommandLineOf(args, lower)), args);
  }

  /** Where argument `i` stands behind the program of a verbatim line. */
  function PlaceOf(args: seq<string>, i: nat): nat
    requires i <= |args|
  {
    if i == 0 then 1 else PlaceOf(args, i - 1) + |args[i - 1]| + 1
  }

  lemma {:induction false} PlaceCons(args: seq<string>, i: nat)
    requires 0 < i <= |args|
    ensures PlaceOf(args, i) == 1 + |args[0]| + PlaceOf(args[1..], i - 1)
  {
    if i > 1 { PlaceCons(args, i - 1); }
  }

  lemma Behind(x: string, t: string, at: nat, n: nat)
    requires 0 < at && at + n <= |t|
    ensures (x + t)[|x| + at..|x| + at + n] == t[at..at + n] && (x + t)[|x| + at - 1] == t[at - 1]
  {}

  lemma {:induction false} VerbatimLength(args: seq<string>)
    ensures |Tail(args, true)| + 1 == PlaceOf(args, |args|)
  {
    if args != [] {
      VerbatimLength(args[1..]);
      PlaceCons(args, |args|);
    }
  }

  lemma VerbatimFirst(args: seq<string>)
    requires args != []
    ensures var t := Tail(args, true);
            t == ([' '] + args[0]) + Tail(args[1..], true) && |args[0]| < |t| && t[0] == ' ' && t[1..1 + |args[0]|] == args[0]
  {}

  lemma {:induction false} VerbatimAt(args: seq<string>, i: nat)
    requires i < |args|
    ensures var t, at := Tail(args, true), PlaceOf(args, i);
            && at > 0 && at + |args[i]| <= |t| && t[at - 1] == ' ' && t[at..at + |args[i]|] == args[i]
  {
    hide PlaceOf, Tail;
    VerbatimFirst(args);
    if i > 0 {
      PlaceCons(args, i);
      VerbatimAt(args[1..], i - 1);
      Behind([' '] + args[0], Tail(args[1..], true), PlaceOf(args[1..], i - 1), |args[i]|);
    } else {
      FirstPlace(args);
    }
  }

  lemma FirstPlace(args: seq<string>)
    ensures PlaceOf(args, 0) == 1
  {}

  lemma CmdLineIs(args: seq<string>, lower: char -> char)
    requires args != [] && NamesCmd(args[0], lower)
    ensures CommandLineOf(args, lower) == Escaped(args[0]) + Tail(args[1..], true)
  {
    hide IsCmdExe, NamesCmd, Escaped, Tail;
    IsCmdIff(args[0], lower);
  }

  /** For cmd.exe the line is the program, quoted like any other, and then every argument as it
      is, each after one space and with nothing else. */
  lemma CmdVerbatim(args: seq<string>, lower: char -> char, i: nat)
    requires args != [] && NamesCmd(args[0], lower) && 0 < i < |args|
    ensures var line, head := CommandLineOf(args, lower), Escaped(args[0]);
            var at := |head| + PlaceOf(args[1..], i - 1);
            && head <= line && |line| + 1 == |head| + PlaceOf(args[1..], |args| - 1)
            && at + |args[i]| <= |line| && line[at - 1] == ' ' && line[at..at + |args[i]|] == args[i]
  {
    hide CommandLineOf, NamesCmd, Escaped, Tail, PlaceOf;
    CmdLineIs(args, lower);
    var head, t := Escaped(args[0]), Tail(args[1..], true);
    VerbatimAt(args[1..], i - 1);
    VerbatimLength(args[1..]);
    var at := PlaceOf(args[1..], i - 1);
    Behind(head, t, at, |args[i]|);
    assert args[1..][i - 1] == args[i];
  }

  lemma TailStarts(args: seq<string>)
    ensures var t := Tail(args, false); t == [] || Blank(t[0])
  {
    hide Escaped;
  }

  lemma SameArgs(argv: seq<string>, args: seq<string>)
    requires argv != [] && args != []
    ensures argv == args <==> argv[0] == args[0] && argv[1..] == args[1..]
  {
    assert argv == [argv[0]] + argv[1..] && args == [args[0]] + args[1..];
  }

  /** A quotation mark in the program's path splits the line elsewhere: this program and no
      arguments reach the child as a program and one empty argument. */
  lemma QuoteInProgram(lower: char -> char)
    ensures Parse(CommandLineOf(["a\""], lower)) == ["a\\", ""]
  {
    hide Parse;
    QuotePrinted(lower);
    QuoteParsed();
  }

  const BROKEN := "\"a\\\"\""

  lemma QuotePrinted(lower: char -> char)
    ensures CommandLineOf(["a\""], lower) == BROKEN
  {
    hide IsCmdExe;
    var program := "a\"";
    assert program[1..] == "\"" && program[1..][1..] == [];
    assert Body([], 0) == [];
    assert Body("\"", 0) == "\\\"";
    assert QUOTE in program && Special(QUOTE);
  }

  lemma QuoteParsed()
    ensures Parse(BROKEN) == ["a\\", ""]
  {
    hide UpTo, Slashes;
    assert BROKEN[1..] == "a\\" + ([QUOTE] + "\"");
    UpToIs("a\\", [QUOTE] + "\"", c => c == QUOTE);
    assert BROKEN[4..] == "\"" && "\""[1..] == [];
    assert [] + Slashes(0) == [];
  }

  // ---- As the launcher does it ----

  function BodyFrom(s: string, i: nat, n: nat): string
    requires i <= |s|
  {
    Body(s[i..], n)
  }

  lemma BodyFromStep(s: string, i: nat, n: nat)
    requires i <= |s|
    ensures BodyFrom(s, i, n) ==
      if i == |s| then Slashes(2 * n)
      else if s[i] == SLASH then BodyFrom(s, i + 1, n + 1)
      else if s[i] == QUOTE then Slashes(2 * n + 1) + [QUOTE] + BodyFrom(s, i + 1, 0)
      else Slashes(n) + [s[i]] + BodyFrom(s, i + 1, 0)
  {
    if i < |s| { assert s[i..][1..] == s[i + 1..]; }
  }

  /** What the line still lacks before argument `k`. */
  function Remaining(args: seq<string>, k: nat, lower: char -> char): string
    requires k <= |args|
  {
    if k == 0 then CommandLineOf(args, lower) else Tail(args[k..], IsCmdExe(args[0], lower))
  }

  lemma RemainingStep(args: seq<string>, k: nat, lower: char -> char)
    requires k < |args|
    ensures Remaining(args, k, lower)
            == (if k == 0 then [] else [' ']) + (if k == 0 || !IsCmdExe(args[0], lower) then Escaped(args[k]) else args[k])
               + Remaining(args, k + 1, lower)
  {
    hide IsCmdExe, Escaped;
    assert args[k..][1..] == args[k + 1..];
  }

  lemma Regroup(r: string, x: string, y: string, z: string)
    ensures r + x + y + z == r + (x + y + z)
  {}

  /** The loop over the characters of a quoted argument. */
  method EscapeInQuotes(s: string, out: string) returns (r: string)
    ensures r == out + Body(s, 0)
  {
    hide *;
    r := out;
    var i := 0;
    NothingLeft(s, out, 0);
    while i < |s|
      invariant i <= |s| && r + BodyFrom(s, i, 0) == out + Body(s, 0)
    {
      ghost var from := i;
      var backslashes := 0;
      while i < |s| && s[i] == SLASH
        invariant from <= i <= |s| && BodyFrom(s, i, backslashes) == BodyFrom(s, from, 0)
      {
        BodyFromStep(s, i, backslashes);
        i, backslashes := i + 1, backslashes + 1;
      }
      BodyFromStep(s, i, backslashes);
      if i == |s| {
        r := r + Slashes(backslashes * 2);
        return;
      }
      if s[i] == QUOTE {
        Regroup(r, Slashes(backslashes * 2 + 1), [QUOTE], BodyFrom(s, i + 1, 0));
        r := r + Slashes(backslashes * 2 + 1) + [QUOTE];
      } else {
        Regroup(r, Slashes(backslashes), [s[i]], BodyFrom(s, i + 1, 0));
        r := r + Slashes(backslashes) + [s[i]];
      }
      i := i + 1;
    }
    NothingLeft(s, r, i);
  }

  /** Appends one argument to the line. */
  method EscapeArg(s: string, out: string) returns (r: string)
    ensures r == out + Escaped(s)
  {
    if s == [] {
      return out + [QUOTE, QUOTE];
    }
    var needEscape, k := false, 0;
    while k < |s| && !needEscape
      invariant k <= |s| && (needEscape ==> NeedsEscape(s)) && (!needEscape ==> forall j :: 0 <= j < k ==> !Special(s[j]))
      decreases |s| - k, !needEscape
    {
      if Special(s[k]) {
        assert s[k] in s;
        needEscape := true;
      } else {
        k := k + 1;
      }
    }
    if !needEscape {
      return out + s;
    }
    r := EscapeInQuotes(s, out + [QUOTE]);
    assert out + [QUOTE] + Body(s, 0) + [QUOTE] == out + ([QUOTE] + Body(s, 0) + [QUOTE]);
    r := r + [QUOTE];
  }

  lemma NothingLeft(s: string, r: string, i: nat)
    ensures BodyFrom(s, 0, 0) == Body(s, 0)
    ensures r + BodyFrom(s, |s|, 0) == r
  {
    assert s[0..] == s;
  }

  method BuildChildCommandLine(args: seq<string>, lower: char -> char) returns (out: string)
    ensures out == CommandLineOf(args, lower)
  {
    hide IsCmdExe, Escaped, Tail, CommandLineOf, Remaining;
    var isCmd := args != [] && IsCmdExe(args[0], lower);
    out := [];
    var k := 0;
    RemainingEnds(args, lower);
    while k < |args|
      invariant k <= |args| && out + Remaining(args, k, lower) == CommandLineOf(args, lower)
    {
      RemainingStep(args, k, lower);
      ghost var before := out;
      if k != 0 {
        out := out + [' '];
      }
      if k == 0 || !isCmd {
        out := EscapeArg(args[k], out);
      } else {
        out := out + args[k];
      }
      k := k + 1;
    }
  }

  lemma RemainingEnds(args: seq<string>, lower: char -> char)
    ensures Remaining(args, 0, lower) == CommandLineOf(args, lower) && Remaining(args, |args|, lower) == []
  {
    hide IsCmdExe, Escaped;
  }
}
