/** The token source `yacl::convert`: it turns a whole command line into an
    argv-style token sequence and an argv-style sequence back into one line.

    A converter remembers three things, each read back by one of its
    `operator>>` overloads: the token count `argc`, the tokens `argv`, and
    the command-line text. The raw `char**` buffers become `seq<string>`. */
module Tokens {

  /** `std::isspace` in the classic "C" locale: the characters that end a
      `std::string` extracted from a stream with `operator>>`. */
  predicate IsSpace(c: char) {
    c == ' ' || c == '\t' || c == '\n' || c == '\U{000B}' || c == '\U{000C}' || c == '\r'
  }

  /** A token as a stream extraction yields it: non-empty, no whitespace. */
  predicate IsToken(t: string) {
    |t| > 0 && forall i :: 0 <= i < |t| ==> !IsSpace(t[i])
  }

  predicate AllTokens(ts: seq<string>) {
    forall i :: 0 <= i < |ts| ==> IsToken(ts[i])
  }

  predicate AllSpace(s: string) {
    forall i :: 0 <= i < |s| ==> IsSpace(s[i])
  }

  /** A line whose tokens are separated by exactly one blank, with no
      leading or trailing whitespace and no other whitespace character. */
  predicate SingleSpaced(s: string) {
    forall i :: 0 <= i < |s| && IsSpace(s[i]) ==>
      s[i] == ' ' && 0 < i < |s| - 1 && !IsSpace(s[i + 1])
  }

  /** Length of the longest whitespace-free prefix of `s`. */
  function RunLength(s: string): (k: nat)
    ensures k <= |s|
    ensures forall i :: 0 <= i < k ==> !IsSpace(s[i])
    ensures k < |s| ==> IsSpace(s[k])
  {
    if s == [] || IsSpace(s[0]) then 0 else 1 + RunLength(s[1..])
  }

  /** The tokens that repeated `ss >> s_tmp` extractions read from `s`: each
      extraction skips whitespace and then takes the longest run without any. */
  function Words(s: string): (ts: seq<string>)
    ensures AllTokens(ts)
    decreases |s|
  {
    if s == [] then []
    else if IsSpace(s[0]) then Words(s[1..])
    else
      var k := RunLength(s);
      [s[..k]] + Words(s[k..])
  }

  /** `argv[0]` followed by `" " + a` for every later argument `a`; the empty
      string when there is no argument. */
  function Join(args: seq<string>): string {
    if args == [] then "" else args[0] + Spaced(args[1..])
  }

  /** Each argument preceded by one blank. */
  function Spaced(args: seq<string>): string {
    if args == [] then "" else " " + args[0] + Spaced(args[1..])
  }

  /** An argument read as a C string: everything before its first NUL. */
  function CString(a: string): (r: string)
    ensures r <= a && '\0' !in r
    ensures '\0' in a ==> |r| < |a| && a[|r|] == '\0'
    ensures '\0' !in a ==> r == a
  {
    if a == [] || a[0] == '\0' then [] else [a[0]] + CString(a[1..])
  }

  /** Every argument read as a C string. */
  function CStrings(args: seq<string>): (r: seq<string>)
    ensures |r| == |args|
    ensures forall i :: 0 <= i < |args| ==> r[i] == CString(args[i])
  {
    seq(|args|, i requires 0 <= i < |args| => CString(args[i]))
  }

  /** What a converter holds; `operator>>` reads back each field. */
  datatype Converter = Converter(argc: int, argv: seq<string>, text: string)

  // ---------------------------------------------------------------------
  // The two constructors
  // ---------------------------------------------------------------------

  /** `convert(std::string)`: keep the text verbatim and extract its tokens
      one `operator>>` at a time; an all-blank text gives no tokens. */
  method ConvertString(s: string) returns (c: Converter)
    ensures c.text == s
    ensures c.argv == Words(s)
    ensures c.argc == |c.argv|
  {
    var tokens: seq<string> := [];
    var i := 0;
    while i < |s|
      invariant 0 <= i <= |s|
      invariant tokens + Words(s[i..]) == Words(s)
      decreases |s| - i
    {
      if IsSpace(s[i]) {
        assert s[i..][1..] == s[i + 1..];
        i := i + 1;
      } else {
        var j := i;
        while j < |s| && !IsSpace(s[j])
          invariant i <= j <= |s|
          invariant forall k :: i <= k < j ==> !IsSpace(s[k])
          decreases |s| - j
        {
          j := j + 1;
        }
        WordsAtRun(s, i, j);
        tokens := tokens + [s[i..j]];
        i := j;
      }
    }
    c := Converter(|tokens|, tokens, s);
  }

  /** `convert(argc, argv)`: with at least one argument the text is `argv[0]`
      followed by `" " + a` for each later argument, each read as a C string,
      so cut at its first NUL; otherwise the text stays empty. The count and
      the arguments are kept as given. */
  method ConvertArgv(argc: int, argv: seq<string>) returns (c: Converter)
    requires argc <= |argv|
    ensures c.argc == argc && c.argv == argv
    ensures argc < 1 ==> c.text == ""
    ensures argc >= 1 ==> c.text == Join(CStrings(argv[..argc]))
  {
    if argc < 1 {
      return Converter(argc, argv, "");
    }
    var text := CString(argv[0]);
    var i := 1;
    assert CStrings(argv[..1]) == [CString(argv[0])];
    while i < argc
      invariant 1 <= i <= argc
      invariant text == Join(CStrings(argv[..i]))
      decreases argc - i
    {
      JoinSnoc(CStrings(argv[..i]), CString(argv[i]));
      assert CStrings(argv[..i]) + [CString(argv[i])] == CStrings(argv[..i + 1]);
      text := text + " " + CString(argv[i]);
      i := i + 1;
    }
    c := Converter(argc, argv, text);
  }

  /** The test's round trip: split a line, rebuild a line from the count and
      the tokens read back, and read its text. The rebuilt line joins the
      tokens cut at their first NUL; for a single-spaced line without NUL it
      is the line itself. */
  method ConvertBack(s: string) returns (back: string)
    ensures back == Join(CStrings(Words(s)))
    ensures SingleSpaced(s) && '\0' !in s ==> back == s
  {
    var c := ConvertString(s);
    var d := ConvertArgv(c.argc, c.argv);
    back := d.text;
    if c.argc < 1 {
      assert c.argv == [];
      assert CStrings([]) == [];
    } else {
      assert c.argv[..c.argc] == c.argv;
    }
    if SingleSpaced(s) && '\0' !in s {
      WordsWithoutNul(s);
      JoinWords(s);
    }
  }

  // ---------------------------------------------------------------------
  // Properties of splitting
  // ---------------------------------------------------------------------

  /** The run length is the only length with its defining property. */
  lemma RunLengthUnique(s: string, k: nat)
    requires k <= |s|
    requires forall i :: 0 <= i < k ==> !IsSpace(s[i])
    requires k == |s| || IsSpace(s[k])
    ensures RunLength(s) == k
  {
  }

  /** One extraction at a non-blank position takes the run up to the next
      whitespace character or the end of the line. */
  lemma WordsAtRun(s: string, i: nat, j: nat)
    requires i < j <= |s|
    requires forall k :: i <= k < j ==> !IsSpace(s[k])
    requires j == |s| || IsSpace(s[j])
    ensures Words(s[i..]) == [s[i..j]] + Words(s[j..])
  {
    RunLengthUnique(s[i..], j - i);
    assert s[i..][..j - i] == s[i..j];
    assert s[i..][j - i..] == s[j..];
  }

  /** Every character of every token comes from the line. */
  lemma {:induction false} WordsCharsFromLine(s: string, c: char)
    ensures forall i :: 0 <= i < |Words(s)| && c in Words(s)[i] ==> c in s
    decreases |s|
  {
    if s != [] {
      if IsSpace(s[0]) {
        WordsCharsFromLine(s[1..], c);
      } else {
        var k := RunLength(s);
        WordsCharsFromLine(s[k..], c);
        assert s == s[..k] + s[k..];
        forall i | 0 <= i < |Words(s)| && c in Words(s)[i] ensures c in s {
          if i == 0 {
            assert Words(s)[0] == s[..k];
          } else {
            assert Words(s)[i] == Words(s[k..])[i - 1];
          }
        }
      }
    }
  }

  /** On a line without NUL, reading its tokens as C strings loses nothing. */
  lemma WordsWithoutNul(s: string)
    requires '\0' !in s
    ensures CStrings(Words(s)) == Words(s)
  {
    WordsCharsFromLine(s, '\0');
  }

  /** A NUL inside a token cuts the rebuilt line: "a\0b" is single-spaced,
      but the line rebuilt from its one token is "a". */
  lemma NulCutsRoundTrip()
    ensures SingleSpaced("a\0b")
    ensures Join(CStrings(Words("a\0b"))) == "a"
  {
    assert IsToken("a\0b");
    WordsOfToken("a\0b");
    assert CString("a\0b") == "a";
    assert CStrings(["a\0b"]) == ["a"];
    assert Join(["a"]) == "a" + Spaced([]);
  }

  /** Splitting gives no token exactly when the line is blank. */
  lemma {:induction false} WordsEmptyIffAllSpace(s: string)
    ensures Words(s) == [] <==> AllSpace(s)
    decreases |s|
  {
    if s != [] && IsSpace(s[0]) {
      WordsEmptyIffAllSpace(s[1..]);
      if AllSpace(s[1..]) {
        forall i | 0 <= i < |s| ensures IsSpace(s[i]) {
          if i > 0 { assert s[i] == s[1..][i - 1]; }
        }
      } else {
        var i :| 0 <= i < |s[1..]| && !IsSpace(s[1..][i]);
        assert !IsSpace(s[i + 1]);
      }
    }
  }

  /** A single token splits into itself. */
  lemma WordsOfToken(t: string)
    requires IsToken(t)
    ensures Words(t) == [t]
  {
    RunLengthUnique(t, |t|);
    assert t[..|t|] == t;
    assert t[|t|..] == [];
    assert Words(t) == [t[..|t|]] + Words(t[|t|..]);
  }

  lemma RunLengthAppend(a: string, b: string)
    requires RunLength(a) < |a| || b == [] || IsSpace(b[0])
    ensures RunLength(a + b) == RunLength(a)
  {
    var k := RunLength(a);
    RunLengthUnique(a + b, k);
  }

  /** One whitespace character separates the tokens on its left from those
      on its right: with `WordsOfToken` and a blank line giving nothing, this
      fixes the split of every line, so tokens are exactly the maximal
      whitespace-free runs, in order. */
  lemma {:induction false} WordsSplitAtSpace(a: string, c: char, b: string)
    requires IsSpace(c)
    ensures Words(a + [c] + b) == Words(a) + Words(b)
    decreases |a|
  {
    var s := a + [c] + b;
    if a == [] {
      assert s[1..] == b;
    } else if IsSpace(a[0]) {
      assert s[1..] == a[1..] + [c] + b;
      WordsSplitAtSpace(a[1..], c, b);
    } else {
      var k := RunLength(a);
      RunLengthAppend(a, [c] + b);
      assert a + [c] + b == a + ([c] + b);
      assert s[..k] == a[..k];
      assert s[k..] == a[k..] + [c] + b;
      WordsSplitAtSpace(a[k..], c, b);
    }
  }

  // ---------------------------------------------------------------------
  // Properties of joining, and the round trips
  // ---------------------------------------------------------------------

  lemma {:induction false} SpacedSnoc(args: seq<string>, x: string)
    ensures Spaced(args + [x]) == Spaced(args) + " " + x
    decreases |args|
  {
    if args != [] {
      assert (args + [x])[1..] == args[1..] + [x];
      SpacedSnoc(args[1..], x);
    } else {
      assert Spaced([x]) == " " + x + Spaced([]);
    }
  }

  /** Appending an argument appends one blank and the argument. */
  lemma JoinSnoc(args: seq<string>, x: string)
    requires args != []
    ensures Join(args + [x]) == Join(args) + " " + x
  {
    assert (args + [x])[1..] == args[1..] + [x];
    SpacedSnoc(args[1..], x);
  }

  lemma JoinCons(t: string, rest: seq<string>)
    requires rest != []
    ensures Join([t] + rest) == t + " " + Join(rest)
  {
    assert ([t] + rest)[1..] == rest;
  }

  /** Splitting a joined sequence of tokens gives the tokens back. */
  lemma {:induction false} WordsJoin(ts: seq<string>)
    requires AllTokens(ts)
    ensures Words(Join(ts)) == ts
    decreases |ts|
  {
    if ts == [] {
    } else if |ts| == 1 {
      assert Join(ts) == ts[0] + Spaced([]);
      WordsOfToken(ts[0]);
    } else {
      assert ts == [ts[0]] + ts[1..];
      JoinCons(ts[0], ts[1..]);
      assert Join(ts) == ts[0] + [' '] + Join(ts[1..]);
      WordsSplitAtSpace(ts[0], ' ', Join(ts[1..]));
      WordsOfToken(ts[0]);
      WordsJoin(ts[1..]);
    }
  }

  /** Joining a single-spaced line's tokens gives the line back. */
  lemma {:induction false} JoinWords(s: string)
    requires SingleSpaced(s)
    ensures Join(Words(s)) == s
    decreases |s|
  {
    var k := RunLength(s);
    if s == [] {
    } else if k == |s| {
      assert IsToken(s);
      WordsOfToken(s);
      assert Join([s]) == s + Spaced([]);
    } else {
      assert 0 < k;
      var b := s[k + 1..];
      assert s[k] == ' ';
      assert s[k..][1..] == b;
      assert Words(s) == [s[..k]] + Words(b);
      forall j | 0 <= j < |b| && IsSpace(b[j])
        ensures b[j] == ' ' && 0 < j < |b| - 1 && !IsSpace(b[j + 1])
      {
        assert b[j] == s[k + 1 + j];
      }
      assert !IsSpace(b[0]);
      JoinWords(b);
      WordsEmptyIffAllSpace(b);
      JoinCons(s[..k], Words(b));
      assert s == s[..k] + " " + b;
    }
  }

  /** The line a join produces is single-spaced: together with `JoinWords`
      and `WordsJoin`, single-spaced lines and token sequences correspond
      one to one. */
  lemma {:induction false} JoinIsSingleSpaced(ts: seq<string>)
    requires AllTokens(ts)
    ensures SingleSpaced(Join(ts))
    decreases |ts|
  {
    if |ts| == 1 {
      assert Join(ts) == ts[0] + Spaced([]);
    } else if |ts| > 1 {
      var t, u := ts[0], Join(ts[1..]);
      JoinIsSingleSpaced(ts[1..]);
      JoinCons(t, ts[1..]);
      assert ts == [t] + ts[1..];
      var s := t + " " + u;
      assert Join(ts) == s;
      assert u == ts[1] + Spaced(ts[2..]);
      assert |u| > 0 && !IsSpace(u[0]);
      assert forall i :: 0 <= i < |t| ==> s[i] == t[i];
      forall i | 0 <= i < |s| && IsSpace(s[i])
        ensures s[i] == ' ' && 0 < i < |s| - 1 && !IsSpace(s[i + 1])
      {
        if i > |t| {
          assert s[i] == u[i - |t| - 1];
          if i + 1 < |s| { assert s[i + 1] == u[i - |t|]; }
        }
      }
    }
  }

  /** The sample command line of the converter test. */
  const SampleLine := "--op1=123 positional_1 -v positional_2 -h --op2=str positional_3"

  const SampleArgs := ["--op1=123", "positional_1", "-v", "positional_2", "-h", "--op2=str", "positional_3"]

  lemma SampleArgsAreTokens()
    ensures AllTokens(SampleArgs)
  {
    forall i | 0 <= i < |SampleArgs| ensures IsToken(SampleArgs[i]) {
      var t := SampleArgs[i];
      assert forall j :: 0 <= j < |t| ==> !IsSpace(t[j]);
    }
  }

  /** The sample line, built up from its start one blank and token at a time. */
  lemma SampleLinePrefixes()
    ensures "--op1=123" + " " + "positional_1" == "--op1=123 positional_1"
    ensures "--op1=123 positional_1" + " " + "-v" == "--op1=123 positional_1 -v"
    ensures "--op1=123 positional_1 -v" + " " + "positional_2" == "--op1=123 positional_1 -v positional_2"
    ensures "--op1=123 positional_1 -v positional_2" + " " + "-h" == "--op1=123 positional_1 -v positional_2 -h"
    ensures "--op1=123 positional_1 -v positional_2 -h" + " " + "--op2=str" == "--op1=123 positional_1 -v positional_2 -h --op2=str"
    ensures "--op1=123 positional_1 -v positional_2 -h --op2=str" + " " + "positional_3" == "--op1=123 positional_1 -v positional_2 -h --op2=str positional_3"
  {
  }

  lemma JoinPrefixStep(args: seq<string>, k: nat, p: string, q: string)
    requires 1 <= k < |args|
    requires Join(args[..k]) == p && p + " " + args[k] == q
    ensures Join(args[..k + 1]) == q
  {
    JoinSnoc(args[..k], args[k]);
    assert args[..k] + [args[k]] == args[..k + 1];
  }

  lemma SampleJoin()
    ensures Join(SampleArgs) == SampleLine
  {
    var a := SampleArgs;
    SampleLinePrefixes();
    assert Join(a[..1]) == "--op1=123" + Spaced([]);
    JoinPrefixStep(a, 1, "--op1=123", "--op1=123 positional_1");
    JoinPrefixStep(a, 2, "--op1=123 positional_1", "--op1=123 positional_1 -v");
    JoinPrefixStep(a, 3, "--op1=123 positional_1 -v", "--op1=123 positional_1 -v positional_2");
    JoinPrefixStep(a, 4, "--op1=123 positional_1 -v positional_2", "--op1=123 positional_1 -v positional_2 -h");
    JoinPrefixStep(a, 5, "--op1=123 positional_1 -v positional_2 -h", "--op1=123 positional_1 -v positional_2 -h --op2=str");
    JoinPrefixStep(a, 6, "--op1=123 positional_1 -v positional_2 -h --op2=str", "--op1=123 positional_1 -v positional_2 -h --op2=str positional_3");
    assert a[..7] == a;
  }

  /** The converter test: the sample line splits into seven tokens, from
      "--op1=123" to "positional_3", and joining them reproduces it. */
  lemma SampleLineSplits()
    ensures |Words(SampleLine)| == 7
    ensures Words(SampleLine)[0] == "--op1=123" && Words(SampleLine)[1] == "positional_1"
    ensures Words(SampleLine)[6] == "positional_3"
    ensures Join(Words(SampleLine)) == SampleLine
  {
    SampleArgsAreTokens();
    SampleJoin();
    WordsJoin(SampleArgs);
  }
}
