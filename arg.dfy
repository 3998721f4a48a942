/** Command-line and job-file argument lexing and validation
    (src/application/arg.cpp, flag strings from src/application/arg.h:19-31).

    `Arg` is copied by value wherever the program uses it (into and out of the
    list), so it is a datatype here and `setValue` returns the updated copy.
    `ArgList` owns a vector that `add` and `clear` change in place: it is a
    class whose `args` field those methods reassign. */
module Args {
  import opened Util

  const FlagJobFile: string := "-jf"
  const FlagInFile: string := "-if"
  const FlagOutFile: string := "-of"
  const FlagOutDir: string := "-od"
  const FlagTag: string := "-t"
  const FlagForceJf: string := "--force-jf"
  const FlagWError: string := "-Werror"
  /** arg.cpp:105 compares against `argStr_wSup`, whose text is not among the
      flag strings of arg.h; this string stands in for it. */
  const FlagWSup: string := "-Wsup"
  const FlagCopy: string := "--copy"
  const FlagCopyOw: string := "--copy-ow"
  const FlagHelp: string := "-h"
  const FlagHelpAlt: string := "--help"
  const FlagVersion: string := "-v"
  const FlagVersionAlt: string := "--version"

  /** Job file loaded when no argument is given (arg.cpp:423). */
  const DefaultJobFile: string := "./potorooJobs"

  datatype ArgType =
    | InvalidType
    | Help
    | Version
    | JobFile
    | InFile
    | OutDir
    | OutFile
    | Tag
    | ForceJf
    | WError
    | WSup
    | Copy
    | CopyOw

  datatype ArgProcResult = ProcError | LoadFile | Process | PrintVersion | PrintHelp

  datatype Arg = Arg(argType: ArgType, value: string, valid: bool)

  /** `Arg()`: invalid, no value. */
  const EmptyArg: Arg := Arg(InvalidType, "", false)

  /** The flag strings that name a type of argument. */
  const KnownFlags: set<string> := {
    FlagJobFile, FlagInFile, FlagOutFile, FlagOutDir, FlagTag, FlagForceJf, FlagWError,
    FlagWSup, FlagCopy, FlagCopyOw, FlagHelp, FlagHelpAlt, FlagVersion, FlagVersionAlt }

  /** The flag strings of the switches, which take no value. */
  const SwitchFlags: set<string> := {
    FlagForceJf, FlagWError, FlagCopy, FlagCopyOw, FlagHelp, FlagHelpAlt, FlagVersion, FlagVersionAlt }

  /** The type the constructor `Arg(const std::string&)` assigns. */
  function TypeOf(s: string): ArgType
  {
    if s == FlagJobFile then JobFile
    else if s == FlagInFile then InFile
    else if s == FlagOutFile then OutFile
    else if s == FlagOutDir then OutDir
    else if s == FlagTag then Tag
    else if s == FlagForceJf then ForceJf
    else if s == FlagWError then WError
    else if s == FlagWSup then WSup
    else if s == FlagCopy then Copy
    else if s == FlagCopyOw then CopyOw
    else if s == FlagHelp || s == FlagHelpAlt then Help
    else if s == FlagVersion || s == FlagVersionAlt then Version
    else InvalidType
  }

  /** `hasValue`: whether an argument of this type is followed by a value. */
  predicate TakesValue(t: ArgType)
  {
    !(t == WError || t == Copy || t == CopyOw || t == ForceJf || t == Help || t == Version)
  }

  /** `Arg(arg)`: a fresh argument is valid exactly for a known switch. */
  function NewArg(s: string): (a: Arg)
    ensures a.argType == TypeOf(s) && a.value == ""
    ensures a.valid <==> s in SwitchFlags
  {
    var t := TypeOf(s);
    Arg(t, "", t != InvalidType && !TakesValue(t))
  }

  /** `setValue`: ignored by an argument of unknown type, which stays
      invalid; any other argument takes the value and becomes valid. */
  function SetValue(a: Arg, v: string): (b: Arg)
    ensures b.argType == a.argType
    ensures b.valid <==> a.argType != InvalidType
    ensures b.value == if a.argType == InvalidType then a.value else v
  {
    if a.argType == InvalidType then a.(valid := false) else a.(value := v, valid := true)
  }

  /** The flag string the model writes for a type (the first spelling). */
  function FlagString(t: ArgType): string
  {
    match t
    case InvalidType => ""
    case Help => FlagHelp
    case Version => FlagVersion
    case JobFile => FlagJobFile
    case InFile => FlagInFile
    case OutDir => FlagOutDir
    case OutFile => FlagOutFile
    case Tag => FlagTag
    case ForceJf => FlagForceJf
    case WError => FlagWError
    case WSup => FlagWSup
    case Copy => FlagCopy
    case CopyOw => FlagCopyOw
  }

  /** Every type has a flag string that maps back to it. */
  lemma TypeOfFlagString(t: ArgType)
    requires t != InvalidType
    ensures TypeOf(FlagString(t)) == t
  {
  }

  /** A string names a type exactly when it is one of the known flags; the
      help and version switches have two spellings each. */
  lemma TypeOfKnown(s: string)
    ensures TypeOf(s) != InvalidType <==> s in KnownFlags
    ensures TypeOf(s) == Help <==> s == FlagHelp || s == FlagHelpAlt
    ensures TypeOf(s) == Version <==> s == FlagVersion || s == FlagVersionAlt
  {
  }

  // ---------------------------------------------------------------------
  // Queries on a list of arguments (the const members of ArgList)

  predicate ContainsType(args: seq<Arg>, t: ArgType)
  {
    exists i :: 0 <= i < |args| && args[i].argType == t
  }

  predicate AnyInvalid(args: seq<Arg>)
  {
    exists i :: 0 <= i < |args| && !args[i].valid
  }

  /** `get(at)`: the first argument of type `at`, or `Arg()`. */
  function FirstOfType(args: seq<Arg>, t: ArgType): (a: Arg)
    ensures ContainsType(args, t) ==>
      exists i :: 0 <= i < |args| && args[i] == a && a.argType == t &&
        forall j :: 0 <= j < i ==> args[j].argType != t
    ensures !ContainsType(args, t) ==> a == EmptyArg
  {
    if args == [] then EmptyArg
    else if args[0].argType == t then args[0]
    else
      var a := FirstOfType(args[1..], t);
      assert ContainsType(args, t) ==> ContainsType(args[1..], t) by {
        if ContainsType(args, t) {
          var i :| 0 <= i < |args| && args[i].argType == t;
          assert args[1..][i - 1].argType == t;
        }
      }
      assert ContainsType(args[1..], t) ==> ContainsType(args, t) by {
        if ContainsType(args[1..], t) {
          var i :| 0 <= i < |args[1..]| && args[1..][i].argType == t;
          assert args[i + 1].argType == t;
        }
      }
      if ContainsType(args[1..], t) then
        var i :| 0 <= i < |args[1..]| && args[1..][i] == a && a.argType == t &&
          forall j :: 0 <= j < i ==> args[1..][j].argType != t;
        assert args[i + 1] == a;
        assert forall j :: 0 <= j < i + 1 ==> args[j].argType != t by {
          forall j | 0 <= j < i + 1 ensures args[j].argType != t {
            if j > 0 { assert args[j] == args[1..][j - 1]; }
          }
        }
        a
      else a
  }

  /** `count(at)`. */
  function CountType(args: seq<Arg>, t: ArgType): nat
  {
    if args == [] then 0 else (if args[0].argType == t then 1 else 0) + CountType(args[1..], t)
  }

  /** `contains(at)` holds exactly when `count(at) > 0`. */
  lemma {:induction false} ContainsIffCount(args: seq<Arg>, t: ArgType)
    ensures ContainsType(args, t) <==> CountType(args, t) > 0
  {
    if args != [] {
      ContainsIffCount(args[1..], t);
      if ContainsType(args[1..], t) {
        var i :| 0 <= i < |args[1..]| && args[1..][i].argType == t;
        assert args[i + 1].argType == t;
      }
      if ContainsType(args, t) && args[0].argType != t {
        var i :| 0 <= i < |args| && args[i].argType == t;
        assert args[1..][i - 1].argType == t;
      }
    }
  }

  lemma {:induction false} CountAppend(a: seq<Arg>, b: seq<Arg>, t: ArgType)
    ensures CountType(a + b, t) == CountType(a, t) + CountType(b, t)
  {
    if a == [] {
      assert a + b == b;
    } else {
      assert (a + b)[1..] == a[1..] + b;
      CountAppend(a[1..], b, t);
    }
  }

  // ---------------------------------------------------------------------
  // parse(argc, argv)

  /** The arguments built from the tokens after argv[0]: a value-taking
      argument (including one of unknown type) takes the next token as its
      value; with no token left it stays as created. */
  function ArgsOf(tokens: seq<string>): seq<Arg>
  {
    if tokens == [] then []
    else
      var a := NewArg(tokens[0]);
      if TakesValue(a.argType) then
        if |tokens| >= 2 then [SetValue(a, tokens[1])] + ArgsOf(tokens[2..]) else [a]
      else [a] + ArgsOf(tokens[1..])
  }

  /** Index of the first null entry of `argv[..argc]`, or `argc`. */
  function ArgvLength(argc: int, argv: seq<Option<string>>): (n: int)
    requires argc <= |argv|
    ensures n <= argc && (argc >= 0 ==> 0 <= n)
    ensures forall k :: 0 <= k < n ==> argv[k].Some?
    ensures 0 <= n < argc ==> argv[n].None?
    decreases |argv|
  {
    if argc <= 0 then argc
    else if argv[0].None? then 0
    else
      var m := ArgvLength(argc - 1, argv[1..]);
      if m == argc - 1 then argc else 1 + m
  }

  /** The strings `parse(argc, argv)` turns into arguments: argv[1] up to the
      first null entry. */
  function ArgvTokens(argc: int, argv: Option<seq<Option<string>>>): seq<string>
    requires argv.Some? ==> argc <= |argv.value|
  {
    if argv.None? then [] else ArgvStrings(argv.value, ArgvLength(argc, argv.value))
  }

  /** `argv[1..n]`, all of them present. */
  function ArgvStrings(v: seq<Option<string>>, n: int): (r: seq<string>)
    requires n <= |v| && forall k :: 0 <= k < n ==> v[k].Some?
    ensures |r| == if n <= 1 then 0 else n - 1
    ensures forall k :: 0 <= k < |r| ==> r[k] == v[k + 1].value
  {
    if n <= 1 then [] else seq(n - 1, k requires 0 <= k < n - 1 => v[k + 1].value)
  }

  /** Whether an argument is one `parse` can produce from flag and value
      strings: a known type, valid, and no value on a switch. */
  predicate WellFormed(a: Arg)
  {
    a.argType != InvalidType && a.valid && (!TakesValue(a.argType) ==> a.value == "")
  }

  /** The command line a list of arguments is written as. */
  function Unparse(args: seq<Arg>): seq<string>
  {
    if args == [] then []
    else
      var a := args[0];
      [FlagString(a.argType)] + (if TakesValue(a.argType) then [a.value] else []) + Unparse(args[1..])
  }

  /** Parsing the written-out form of well-formed arguments gives them back. */
  lemma {:induction false} ArgsOfUnparse(args: seq<Arg>)
    requires forall i :: 0 <= i < |args| ==> WellFormed(args[i])
    ensures ArgsOf(Unparse(args)) == args
  {
    if args != [] {
      var a := args[0];
      TypeOfFlagString(a.argType);
      ArgsOfUnparse(args[1..]);
      var u := Unparse(args);
      if TakesValue(a.argType) {
        assert u == [FlagString(a.argType), a.value] + Unparse(args[1..]);
        assert u[2..] == Unparse(args[1..]);
      } else {
        assert u == [FlagString(a.argType)] + Unparse(args[1..]);
        assert u[1..] == Unparse(args[1..]);
      }
    }
  }

  // ---------------------------------------------------------------------
  // parse(const char*)

  const NUL: char := 0 as char

  predicate IsBlank(c: char)
  {
    c == '\t' || c == ' '
  }

  /** First index from `i` on that is not a blank. */
  function SkipBlanks(s: string, i: nat): (j: nat)
    requires i <= |s|
    ensures i <= j <= |s|
    ensures j < |s| ==> !IsBlank(s[j])
    decreases |s| - i
  {
    if i < |s| && IsBlank(s[i]) then SkipBlanks(s, i + 1) else i
  }

  /** End of a quoted token: the next '"' or NUL, or the end of the string. */
  function QuoteEnd(s: string, i: nat): (j: nat)
    requires i <= |s|
    ensures i <= j <= |s|
    ensures j < |s| ==> s[j] == '"' || s[j] == NUL
    decreases |s| - i
  {
    if i < |s| && s[i] != '"' && s[i] != NUL then QuoteEnd(s, i + 1) else i
  }

  /** End of an unquoted token: the next blank or NUL, or the end. */
  function WordEnd(s: string, i: nat): (j: nat)
    requires i <= |s|
    ensures i <= j <= |s|
    ensures j < |s| ==> IsBlank(s[j]) || s[j] == NUL
    decreases |s| - i
  {
    if i < |s| && !IsBlank(s[i]) && s[i] != NUL then WordEnd(s, i + 1) else i
  }

  /** The next token of a C string from index `i` on, with the index after
      it; `None` once only blanks remain before a NUL or the end. */
  function NextToken(s: string, i: nat): (t: Option<(string, nat)>)
    requires i <= |s|
    ensures t.Some? ==> i < t.value.1 <= |s|
  {
    var b := SkipBlanks(s, i);
    if b == |s| || s[b] == NUL then None
    else if s[b] == '"' then
      var e := QuoteEnd(s, b + 1);
      Some((s[b + 1..e], if e < |s| && s[e] == '"' then e + 1 else e))
    else
      var e := WordEnd(s, b);
      Some((s[b..e], e))
  }

  /** The tokens of a C string from index `i` on (a NUL ends the string). */
  function TokensFrom(s: string, i: nat): seq<string>
    requires i <= |s|
    decreases |s| - i
  {
    match NextToken(s, i)
    case None => []
    case Some((t, next)) => [t] + TokensFrom(s, next)
  }

  function Tokens(s: string): seq<string>
  {
    TokensFrom(s, 0)
  }

  lemma TokensFromStep(s: string, i: nat)
    requires i <= |s|
    ensures NextToken(s, i).None? ==> TokensFrom(s, i) == []
    ensures NextToken(s, i).Some? ==>
      TokensFrom(s, i) == [NextToken(s, i).value.0] + TokensFrom(s, NextToken(s, i).value.1)
  {
  }

  /** The tokenising loop of `parse(const char*)`. */
  method Tokenize(s: string) returns (list: seq<string>)
    ensures list == Tokens(s)
  {
    list := [];
    var i := 0;
    while i < |s| && s[i] != NUL
      invariant 0 <= i <= |s|
      invariant list + TokensFrom(s, i) == Tokens(s)
      decreases |s| - i
    {
      ghost var i0 := i;
      var found, tmp;
      found, tmp, i := ReadToken(s, i);
      if found {
        TokenStep(s, i0, tmp, i, list);
        list := list + [tmp];
      } else {
        NoTokenStep(s, i0, i);
      }
    }
    NoTokenStep(s, i, i);
  }

  /** One pass of the tokenising loop's body: skips blanks, then reads a
      quoted or an unquoted token if one starts there. */
  method ReadToken(s: string, i0: nat) returns (found: bool, tmp: string, i: nat)
    requires i0 <= |s|
    ensures found ==> NextToken(s, i0) == Some((tmp, i))
    ensures !found ==> i == SkipBlanks(s, i0) && (i == |s| || s[i] == NUL)
    ensures i0 <= i <= |s|
  {
    i := SkipBlanksLoop(s, i0);
    if i < |s| && s[i] == '"' {
      tmp, i := ReadUntil(s, i + 1, true);
      if i < |s| && s[i] == '"' {
        i := i + 1;
      }
      found := true;
    } else if i < |s| && s[i] != NUL {
      tmp, i := ReadUntil(s, i, false);
      found := true;
    } else {
      found, tmp := false, "";
    }
  }

  lemma TokenStep(s: string, i0: nat, t: string, i: nat, list: seq<string>)
    requires i0 <= |s| && NextToken(s, i0) == Some((t, i))
    ensures list + TokensFrom(s, i0) == (list + [t]) + TokensFrom(s, i)
  {
    TokensFromStep(s, i0);
    AppendAssoc(list, [t], TokensFrom(s, i));
  }

  lemma NoTokenStep(s: string, i0: nat, i: nat)
    requires i0 <= |s| && i == SkipBlanks(s, i0)
    requires i == |s| || s[i] == NUL
    ensures TokensFrom(s, i0) == [] && TokensFrom(s, i) == []
  {
    TokensFromStep(s, i0);
    TokensFromStep(s, i);
  }

  method SkipBlanksLoop(s: string, i0: nat) returns (i: nat)
    requires i0 <= |s|
    ensures i == SkipBlanks(s, i0)
  {
    i := i0;
    while i < |s| && IsBlank(s[i])
      invariant i0 <= i <= |s|
      invariant SkipBlanks(s, i) == SkipBlanks(s, i0)
      decreases |s| - i
    {
      i := i + 1;
    }
  }

  /** Copies characters up to the closing quote (`quoted`) or up to a blank,
      stopping at NUL or the end in either case. */
  method ReadUntil(s: string, start: nat, quoted: bool) returns (tmp: string, i: nat)
    requires start <= |s|
    ensures i == if quoted then QuoteEnd(s, start) else WordEnd(s, start)
    ensures tmp == s[start..i]
  {
    tmp := [];
    i := start;
    while i < |s| && s[i] != NUL && (if quoted then s[i] != '"' else !IsBlank(s[i]))
      invariant start <= i <= |s|
      invariant tmp == s[start..i]
      invariant quoted ==> QuoteEnd(s, i) == QuoteEnd(s, start)
      invariant !quoted ==> WordEnd(s, i) == WordEnd(s, start)
      decreases |s| - i
    {
      tmp := tmp + [s[i]];
      i := i + 1;
    }
  }

  /** Blanks before the rest of a string produce no token. */
  lemma BlanksMakeNoToken(s: string, i: nat, j: nat)
    requires i <= j <= |s|
    requires forall k :: i <= k < j ==> IsBlank(s[k])
    ensures TokensFrom(s, i) == TokensFrom(s, j)
  {
    SkipBlanksAcross(s, i, j);
    assert NextToken(s, i) == NextToken(s, j);
  }

  lemma {:induction false} SkipBlanksAcross(s: string, i: nat, j: nat)
    requires i <= j <= |s|
    requires forall k :: i <= k < j ==> IsBlank(s[k])
    ensures SkipBlanks(s, i) == SkipBlanks(s, j)
    decreases j - i
  {
    if i < j {
      SkipBlanksAcross(s, i + 1, j);
    }
  }

  /** Tokens written out as ` "tok1" "tok2" …`. */
  function QuoteJoin(ts: seq<string>): string
  {
    if ts == [] then "" else " \"" + (ts[0] + ("\"" + QuoteJoin(ts[1..])))
  }

  predicate QuotableToken(t: string)
  {
    forall k :: 0 <= k < |t| ==> t[k] != '"' && t[k] != NUL
  }

  /** Tokenising the quoted form gives the tokens back, empty ones too. */
  lemma TokensOfQuoteJoin(ts: seq<string>)
    requires forall i :: 0 <= i < |ts| ==> QuotableToken(ts[i])
    ensures Tokens(QuoteJoin(ts)) == ts
  {
    TokensJoinAt([], ts);
    assert [] + QuoteJoin(ts) == QuoteJoin(ts);
  }

  /** The same, for the quoted form written after any prefix. */
  lemma {:induction false} TokensJoinAt(pre: string, ts: seq<string>)
    requires forall i :: 0 <= i < |ts| ==> QuotableToken(ts[i])
    ensures TokensFrom(pre + QuoteJoin(ts), |pre|) == ts
    decreases |ts|
  {
    if ts == [] {
      NoTokensAtEnd(pre);
    } else {
      var pre' := pre + " \"" + ts[0] + "\"";
      TokensJoinAt(pre', ts[1..]);
      QuotedHead(pre, ts[0], QuoteJoin(ts[1..]), QuoteJoin(ts));
      TokensCons(pre + QuoteJoin(ts), |pre|, ts, |pre'|);
    }
  }

  lemma NoTokensAtEnd(pre: string)
    ensures TokensFrom(pre + QuoteJoin([]), |pre|) == []
  {
    var s := pre + QuoteJoin([]);
    assert s == pre;
    TokensFromStep(s, |pre|);
    assert SkipBlanks(s, |pre|) == |pre|;
  }

  /** The first quoted token written after `pre` is the next token there,
      and the rest of the quoted form follows it. */
  lemma QuotedHead(pre: string, t: string, r: string, q: string)
    requires QuotableToken(t) && q == " \"" + (t + ("\"" + r))
    ensures var pre' := pre + " \"" + t + "\"";
      NextToken(pre + q, |pre|) == Some((t, |pre'|)) && pre + q == pre' + r
  {
    Concat4(pre, " \"", t, "\"" + r);
    AppendAssoc(pre + " \"" + t, "\"", r);
    QuotedAt(pre, t, r);
  }

  /** A token followed by the tokens after it. */
  lemma TokensCons(s: string, i: nat, ts: seq<string>, j: nat)
    requires i <= |s| && ts != []
    requires NextToken(s, i) == Some((ts[0], j)) && TokensFrom(s, j) == ts[1..]
    ensures TokensFrom(s, i) == ts
  {
    TokensFromStep(s, i);
    assert ts == [ts[0]] + ts[1..];
  }

  /** A quoted token written after `pre` is the next token there. */
  lemma QuotedAt(pre: string, t: string, r: string)
    requires QuotableToken(t)
    ensures NextToken(pre + (" \"" + (t + ("\"" + r))), |pre|) == Some((t, |pre| + 3 + |t|))
  {
    var s := pre + (" \"" + (t + ("\"" + r)));
    var m := |pre| + 2;
    assert s[|pre|] == ' ' && s[|pre| + 1] == '"';
    assert SkipBlanks(s, |pre|) == |pre| + 1;
    AppendAssoc(pre, " \"", t + ("\"" + r));
    ConcatMiddle(pre + " \"", t, "\"" + r);
    assert s[m..m + |t|] == t;
    forall k | m <= k < m + |t|
      ensures s[k] != '"' && s[k] != NUL
    {
      assert s[k] == s[m..m + |t|][k - m];
    }
    assert s[m + |t|] == '"';
    QuoteEndAt(s, m, m + |t|);
  }

  lemma {:induction false} QuoteEndAt(s: string, i: nat, j: nat)
    requires i <= j < |s|
    requires forall k :: i <= k < j ==> s[k] != '"' && s[k] != NUL
    requires s[j] == '"'
    ensures QuoteEnd(s, i) == j
    decreases j - i
  {
    if i < j {
      QuoteEndAt(s, i + 1, j);
    }
  }

  /** The arguments `parse(const char*)` produces for a string. */
  function ArgsOfString(s: Option<string>): seq<Arg>
  {
    if s.None? then [] else ArgsOf(Tokens(s.value))
  }

  lemma ArgsOfSomeString(s: string)
    ensures ArgsOfString(Some(s)) == ArgsOf(Tokens(s))
  {
  }

  /** Well-formed arguments written as quoted tokens are parsed back. */
  lemma ParseStringRoundTrip(args: seq<Arg>)
    requires forall i :: 0 <= i < |args| ==> WellFormed(args[i]) && QuotableToken(args[i].value)
    ensures ArgsOfString(Some(QuoteJoin(Unparse(args)))) == args
  {
    TokensOfUnparse(args);
    ArgsOfUnparse(args);
    ArgsOfSomeString(QuoteJoin(Unparse(args)));
  }

  lemma TokensOfUnparse(args: seq<Arg>)
    requires forall i :: 0 <= i < |args| ==> QuotableToken(args[i].value)
    ensures Tokens(QuoteJoin(Unparse(args))) == Unparse(args)
  {
    var u := Unparse(args);
    UnparseQuotable(args);
    TokensOfQuoteJoin(u);
  }

  lemma {:induction false} UnparseQuotable(args: seq<Arg>)
    requires forall i :: 0 <= i < |args| ==> QuotableToken(args[i].value)
    ensures forall k :: 0 <= k < |Unparse(args)| ==> QuotableToken(Unparse(args)[k])
  {
    if args != [] {
      UnparseQuotable(args[1..]);
      var a := args[0];
      var head := [FlagString(a.argType)] + (if TakesValue(a.argType) then [a.value] else []);
      assert Unparse(args) == head + Unparse(args[1..]);
      assert QuotableToken(FlagString(a.argType));
      forall k | 0 <= k < |Unparse(args)| ensures QuotableToken(Unparse(args)[k]) {
        if k >= |head| {
          assert Unparse(args)[k] == Unparse(args[1..])[k - |head|];
        }
      }
    }
  }

  // ---------------------------------------------------------------------
  // The argument list

  class ArgList {
    var args: seq<Arg>

    /** `ArgList()`: an empty list. */
    constructor ()
      ensures args == []
    {
      args := [];
    }

    /** `add`: appends a copy of `a`. */
    method Add(a: Arg)
      modifies this
      ensures args == old(args) + [a]
    {
      args := args + [a];
    }

    /** `clear`. */
    method Clear()
      modifies this
      ensures args == []
    {
      args := [];
    }

    /** `contains(at)`. */
    method Contains(t: ArgType) returns (b: bool)
      ensures b <==> ContainsType(args, t)
    {
      var i := 0;
      while i < |args|
        invariant 0 <= i <= |args|
        invariant forall j :: 0 <= j < i ==> args[j].argType != t
      {
        if args[i].argType == t {
          return true;
        }
        i := i + 1;
      }
      return false;
    }

    /** `containsInvalid()`. */
    method ContainsInvalid() returns (b: bool)
      ensures b <==> AnyInvalid(args)
    {
      var i := 0;
      while i < |args|
        invariant 0 <= i <= |args|
        invariant forall j :: 0 <= j < i ==> args[j].valid
      {
        if !args[i].valid {
          return true;
        }
        i := i + 1;
      }
      return false;
    }

    /** `get(at)`. */
    method Get(t: ArgType) returns (a: Arg)
      ensures a == FirstOfType(args, t)
    {
      var i := 0;
      while i < |args|
        invariant 0 <= i <= |args|
        invariant FirstOfType(args[i..], t) == FirstOfType(args, t)
      {
        if args[i].argType == t {
          return args[i];
        }
        assert args[i..][1..] == args[i + 1..];
        i := i + 1;
      }
      return EmptyArg;
    }

    /** `count()`. */
    method Count() returns (n: nat)
      ensures n == |args|
    {
      return |args|;
    }

    /** `count(at)`. */
    method CountOf(t: ArgType) returns (n: nat)
      ensures n == CountType(args, t)
    {
      n := 0;
      var i := 0;
      while i < |args|
        invariant 0 <= i <= |args|
        invariant n + CountType(args[i..], t) == CountType(args, t)
      {
        assert args[i..][1..] == args[i + 1..];
        if args[i].argType == t {
          n := n + 1;
        }
        i := i + 1;
      }
    }

    /** `parse(argc, argv)`: a null `argv` gives an empty list. */
    static method ParseArgv(argc: int, argv: Option<seq<Option<string>>>) returns (list: ArgList)
      requires argv.Some? ==> argc <= |argv.value|
      ensures fresh(list)
      ensures list.args == ArgsOf(ArgvTokens(argc, argv))
    {
      list := new ArgList();
      if argv.None? {
        return;
      }
      var v := argv.value;
      var n := ArgvCount(argc, v);
      list.AddAll(v, n);
    }

    /** The first loop of `parse(argc, argv)`: `argc` cut at the first null
        entry. */
    static method ArgvCount(argc: int, v: seq<Option<string>>) returns (n: int)
      requires argc <= |v|
      ensures n == ArgvLength(argc, v)
    {
      var i := 0;
      while i < argc && v[i].Some?
        invariant 0 <= i <= |v| && (argc >= 0 ==> i <= argc)
        invariant forall k :: 0 <= k < i ==> v[k].Some?
        decreases argc - i
      {
        i := i + 1;
      }
      n := if i < argc then i else argc;
      ArgvLengthIs(argc, v, n);
    }

    /** The second loop of `parse(argc, argv)`: adds the arguments made
        from `argv[1..n]`. */
    method AddAll(v: seq<Option<string>>, n: int)
      requires n <= |v| && forall k :: 0 <= k < n ==> v[k].Some?
      modifies this
      ensures args == old(args) + ArgsOf(ArgvStrings(v, n))
    {
      ghost var tokens := ArgvStrings(v, n);
      ghost var whole := old(args) + ArgsOf(tokens);
      assert args + ArgsOf(tokens[0..]) == whole;
      var i := 1;
      while i < n
        invariant 1 <= i && (n > 1 ==> i <= n + 1)
        invariant i <= n ==> args + ArgsOf(tokens[i - 1..]) == whole
        invariant i > n ==> args == whole
        decreases n - i
      {
        ghost var j := i - 1;
        var a := NewArg(v[i].value);
        if TakesValue(a.argType) {
          i := i + 1;
          if i < n {
            a := SetValue(a, v[i].value);
          }
        }
        ArgsStep(tokens, j, args, a, i, whole);
        Add(a);
        i := i + 1;
      }
      if n <= 1 {
        assert args + [] == args;
      }
    }

    /** `parse(const char*)`: tokenise, then parse the tokens as argv[1..]
        after an empty argv[0]. */
    static method ParseString(s: Option<string>) returns (list: ArgList)
      ensures fresh(list)
      ensures list.args == ArgsOfString(s)
    {
      if s.None? {
        list := new ArgList();
        return;
      }
      var tokens := Tokenize(s.value);
      var argv := [Some("")] + seq(|tokens|, k requires 0 <= k < |tokens| => Some(tokens[k]));
      list := ParseArgv(|tokens| + 1, Some(argv));
      assert ArgvLength(|tokens| + 1, argv) == |tokens| + 1 by {
        ArgvLengthIs(|tokens| + 1, argv, |tokens| + 1);
      }
      assert ArgvTokens(|tokens| + 1, Some(argv)) == tokens;
    }
  }

  /** One iteration of the argument loop of `parse(argc, argv)`: the
      argument made from `tokens[j]` (with the next token as its value when
      it takes one), after which the loop goes on at `next`. */
  lemma ArgsStep(tokens: seq<string>, j: nat, prefix: seq<Arg>, a: Arg, next: nat, whole: seq<Arg>)
    requires j < |tokens| && prefix + ArgsOf(tokens[j..]) == whole
    requires var b := NewArg(tokens[j]);
      a == if TakesValue(b.argType) && j + 1 < |tokens| then SetValue(b, tokens[j + 1]) else b
    requires next == if TakesValue(NewArg(tokens[j]).argType) then j + 2 else j + 1
    ensures next <= |tokens| ==> (prefix + [a]) + ArgsOf(tokens[next..]) == whole
    ensures next > |tokens| ==> prefix + [a] == whole
  {
    var rest := tokens[j..];
    if next <= |tokens| {
      assert rest[next - j..] == tokens[next..];
      assert ArgsOf(rest) == [a] + ArgsOf(tokens[next..]);
      AppendAssoc(prefix, [a], ArgsOf(tokens[next..]));
    } else {
      assert ArgsOf(rest) == [a];
    }
  }

  lemma {:induction false} ArgvLengthIs(argc: int, argv: seq<Option<string>>, n: int)
    requires argc <= |argv|
    requires n <= argc && (argc >= 0 ==> 0 <= n) && (argc < 0 ==> n == argc)
    requires forall k :: 0 <= k < n ==> argv[k].Some?
    requires 0 <= n < argc ==> argv[n].None?
    ensures ArgvLength(argc, argv) == n
    decreases |argv|
  {
    if argc > 0 && argv[0].Some? {
      ArgvLengthIs(argc - 1, argv[1..], n - 1);
    }
  }

  // ---------------------------------------------------------------------
  // argProcJF and argProc

  /** `argProcJF_cond_in`: exactly one input file, and it is valid. */
  predicate CondIn(args: seq<Arg>)
  {
    CountType(args, InFile) == 1 && FirstOfType(args, InFile).valid
  }

  /** `argProcJF_cond_out`: exactly one valid output file and no output
      directory, or the other way round. */
  predicate CondOut(args: seq<Arg>)
  {
    || (CountType(args, OutDir) == 0 && CountType(args, OutFile) == 1 && FirstOfType(args, OutFile).valid)
    || (CountType(args, OutFile) == 0 && CountType(args, OutDir) == 1 && FirstOfType(args, OutDir).valid)
  }

  /** `argProcJF_cond_tag`: no tag, or exactly one valid tag. */
  predicate CondTag(args: seq<Arg>)
  {
    CountType(args, Tag) == 0 || (CountType(args, Tag) == 1 && FirstOfType(args, Tag).valid)
  }

  /** The verdict and the accumulated message of a validation. */
  datatype Checked = Checked(ok: bool, msg: string)

  /** Appends `part` to `msg`, separated by ", " when `msg` already holds
      a complaint. */
  function Complain(msg: string, errs: nat, part: string): string
  {
    if errs > 0 then msg + ", " + part else msg + part
  }

  /** `argProcJF_cond_misc`: no job file, no invalid argument, and at most
      one of `--copy` and `--copy-ow`, each at most once. */
  function CondMisc(args: seq<Arg>): Checked
  {
    var c0 := CountType(args, JobFile) == 0;
    var m0 := if c0 then "" else FlagJobFile + " not supported inside a jobfile";
    var e0 := if c0 then 0 else 1;
    var c1 := !AnyInvalid(args);
    var m1 := if c1 then m0 else Complain(m0, e0, "invalid argument");
    var e1 := if c1 then e0 else e0 + 1;
    var cp, cw := CountType(args, Copy), CountType(args, CopyOw);
    var c2 := (cp == 0 && cw == 0) || (cp == 0 && cw == 1) || (cp == 1 && cw == 0);
    var m2 := if c2 then m1 else Complain(m1, e1, "invalid copy arguments");
    var cond := (if c0 then 1 else 0) + (if c1 then 2 else 0) + (if c2 then 4 else 0);
    Checked(cond == 0x07, m2)
  }

  /** `argProcJF(args, errMsg)` with an empty `errMsg`: `process` when the
      bit mask of the four conditions is complete, else `error` with the
      complaints listed in the message. */
  function ArgProcJF(args: seq<Arg>): (ArgProcResult, string)
  {
    var c0 := CondIn(args);
    var m0 := if c0 then "" else "invalid input";
    var e0 := if c0 then 0 else 1;
    var c1 := CondOut(args);
    var m1 := if c1 then m0 else Complain(m0, e0, "invalid output");
    var e1 := if c1 then e0 else e0 + 1;
    var c2 := CondTag(args);
    var m2 := if c2 then m1 else Complain(m1, e1, "invalid tag");
    var e2 := if c2 then e1 else e1 + 1;
    var misc := CondMisc(args);
    var m3 := if misc.ok then m2 else Complain(m2, e2, misc.msg);
    var cond := (if c0 then 1 else 0) + (if c1 then 2 else 0) + (if c2 then 4 else 0) + (if misc.ok then 8 else 0);
    (if cond == 0x0F then Process else ProcError, m3)
  }

  /** A job-file line is accepted exactly when it has one valid `-if`; one
      valid `-of` or one valid `-od` but not both; at most one tag, and that
      one valid; no `-jf`; no invalid argument; and neither `--copy` nor
      `--copy-ow` repeated nor both given. The message is empty exactly on
      acceptance. */
  lemma ArgProcJFAccepts(args: seq<Arg>)
    ensures ArgProcJF(args).0 == Process <==>
      && CountType(args, InFile) == 1 && FirstOfType(args, InFile).valid
      && ((CountType(args, OutFile) == 1 && FirstOfType(args, OutFile).valid && CountType(args, OutDir) == 0)
          || (CountType(args, OutDir) == 1 && FirstOfType(args, OutDir).valid && CountType(args, OutFile) == 0))
      && (CountType(args, Tag) == 0 || (CountType(args, Tag) == 1 && FirstOfType(args, Tag).valid))
      && CountType(args, JobFile) == 0
      && !AnyInvalid(args)
      && CountType(args, Copy) + CountType(args, CopyOw) <= 1
    ensures ArgProcJF(args).0 in {Process, ProcError}
    ensures ArgProcJF(args).1 == "" <==> ArgProcJF(args).0 == Process
  {
  }

  /** `argProc_cond(args, n)`: `n` arguments, or `n + 1` of which one is
      `--force-jf`. */
  predicate CountCond(args: seq<Arg>, n: nat)
  {
    |args| == n || (|args| == n + 1 && ContainsType(args, ForceJf))
  }

  /** The default `-jf ./potorooJobs` argument. */
  function DefaultJobFileArg(): (a: Arg)
    ensures a.argType == JobFile && a.valid && a.value == DefaultJobFile
  {
    SetValue(NewArg(FlagJobFile), DefaultJobFile)
  }

  /** The list after `argProc` has run: with the default job file added
      when there was nothing else to do. */
  function ArgsAfterProc(args: seq<Arg>): seq<Arg>
  {
    if ContainsType(args, Help) || ContainsType(args, Version) then args
    else if CountCond(args, 0) then args + [DefaultJobFileArg()]
    else args
  }

  /** The verdict of `argProc`. */
  function ArgProcOutcome(args: seq<Arg>): ArgProcResult
  {
    if ContainsType(args, Help) then PrintHelp
    else if ContainsType(args, Version) then PrintVersion
    else Verdict(ArgsAfterProc(args))
  }

  /** The verdict of `argProc` on the list once the default job file may
      have been added: a job file alone (besides `--force-jf`), or the
      checks of a job-file line. */
  function Verdict(a: seq<Arg>): ArgProcResult
  {
    if ContainsType(a, JobFile) then
      if CountCond(a, 1) && FirstOfType(a, JobFile).valid then LoadFile else ProcError
    else ArgProcJF(a).0
  }

  /** `argProc(args)`: may add the default job file to the list. */
  method ArgProc(list: ArgList) returns (r: ArgProcResult)
    modifies list
    ensures list.args == ArgsAfterProc(old(list.args))
    ensures r == ArgProcOutcome(old(list.args))
  {
    var b := list.Contains(Help);
    if b {
      return PrintHelp;
    }
    b := list.Contains(Version);
    if b {
      return PrintVersion;
    }
    var n := list.Count();
    var f := list.Contains(ForceJf);
    if n == 0 || (n == 1 && f) {
      var d := SetValue(NewArg(FlagJobFile), DefaultJobFile);
      list.Add(d);
    }
    r := ListVerdict(list);
  }

  /** The last part of `argProc`, which only reads the list. */
  method ListVerdict(list: ArgList) returns (r: ArgProcResult)
    ensures r == Verdict(list.args)
  {
    var b := list.Contains(JobFile);
    if b {
      var n := list.Count();
      var f := list.Contains(ForceJf);
      var jf := list.Get(JobFile);
      if (n == 1 || (n == 2 && f)) && jf.valid {
        return LoadFile;
      }
      return ProcError;
    }
    r := ArgProcJF(list.args).0;
  }

  /** Help wins over everything, then version. */
  lemma ArgProcHelpFirst(args: seq<Arg>)
    ensures ContainsType(args, Help) ==> ArgProcOutcome(args) == PrintHelp
    ensures !ContainsType(args, Help) && ContainsType(args, Version) ==> ArgProcOutcome(args) == PrintVersion
  {
  }

  /** With no argument, or only `--force-jf`, the default job file is loaded. */
  lemma ArgProcDefault(args: seq<Arg>)
    requires args == [] || args == [NewArg(FlagForceJf)]
    ensures ArgProcOutcome(args) == LoadFile
    ensures ArgsAfterProc(args) == args + [DefaultJobFileArg()]
  {
    var a := args + [DefaultJobFileArg()];
    assert a[|a| - 1].argType == JobFile;
    if args != [] {
      assert a[0].argType == ForceJf;
      assert !ContainsType(args, Help) by { assert args[0].argType == ForceJf; }
      assert !ContainsType(args, Version) by { assert args[0].argType == ForceJf; }
      assert FirstOfType(a, JobFile) == DefaultJobFileArg() by {
        assert a[0].argType != JobFile;
      }
    }
  }

  /** With `-jf` given and neither help nor version, the job file is loaded
      exactly when it is the only argument (besides `--force-jf`) and valid. */
  lemma ArgProcJobFile(args: seq<Arg>)
    requires !ContainsType(args, Help) && !ContainsType(args, Version)
    requires ContainsType(args, JobFile)
    ensures ArgProcOutcome(args) == LoadFile <==> CountCond(args, 1) && FirstOfType(args, JobFile).valid
    ensures ArgProcOutcome(args) in {LoadFile, ProcError}
  {
  }

  /** With no `-jf` and more to go on, the arguments are validated as one
      job-file line would be. */
  lemma ArgProcNoJobFile(args: seq<Arg>)
    requires !ContainsType(args, Help) && !ContainsType(args, Version)
    requires !ContainsType(args, JobFile) && !CountCond(args, 0)
    ensures ArgProcOutcome(args) == ArgProcJF(args).0
  {
  }

  // ---------------------------------------------------------------------
  // wSupStrListToVector

  /** The comma-separated elements of `s` from index `i` on; a trailing
      comma adds none. */
  function SplitFrom(s: string, i: nat): seq<string>
    requires i <= |s|
    decreases |s| - i
  {
    if i == |s| then []
    else
      var e := CommaEnd(s, i);
      [s[i..e]] + (if e < |s| then SplitFrom(s, e + 1) else [])
  }

  function SplitCommas(s: string): seq<string>
  {
    SplitFrom(s, 0)
  }

  /** Index of the first comma from `i` on, or `|s|`. */
  function CommaEnd(s: string, i: nat): (j: nat)
    requires i <= |s|
    ensures i <= j <= |s|
    ensures j < |s| ==> s[j] == ','
    decreases |s| - i
  {
    if i < |s| && s[i] != ',' then CommaEnd(s, i + 1) else i
  }

  /** Every element read by `std::stoi`, or `None` when one of them fails. */
  function ParseInts(parts: seq<string>): (r: Option<seq<int>>)
    ensures r.Some? ==> |r.value| == |parts|
    ensures r.Some? <==> forall k :: 0 <= k < |parts| ==> Stoi(parts[k]).Some?
    ensures r.Some? ==> forall k :: 0 <= k < |parts| ==> r.value[k] == Stoi(parts[k]).value
  {
    if parts == [] then Some([])
    else
      var rest := ParseInts(parts[1..]);
      var head := Stoi(parts[0]);
      if head.Some? && rest.Some? then Some([head.value] + rest.value)
      else
        assert rest.None? ==> exists k :: 0 <= k < |parts[1..]| && Stoi(parts[1..][k]).None?;
        None
  }

  /** `wSupStrListToVector(list, strList)`: returns 0 and the parsed numbers
      when every element parses, else 1 and `list` unchanged. */
  method WSupStrListToVector(list: seq<int>, strList: string) returns (r: int, list': seq<int>)
    ensures var parsed := ParseInts(SplitCommas(strList));
      && (r == 0 <==> parsed.Some?)
      && (r == 0 || r == 1)
      && list' == if parsed.Some? then parsed.value else list
  {
    var parts := SplitLoop(strList);
    var tmpList := [];
    r := 0;
    var i := 0;
    while i < |parts|
      invariant 0 <= i <= |parts|
      invariant |tmpList| == i
      invariant forall k :: 0 <= k < i ==> Stoi(parts[k]).Some? && tmpList[k] == Stoi(parts[k]).value
    {
      var v := Stoi(parts[i]);
      if v.None? {
        r := 1;
        break;
      }
      tmpList := tmpList + [v.value];
      i := i + 1;
    }
    list' := if r == 0 then tmpList else list;
  }

  /** The splitting loop of `wSupStrListToVector`. */
  method SplitLoop(strList: string) returns (parts: seq<string>)
    ensures parts == SplitCommas(strList)
  {
    ghost var whole := SplitCommas(strList);
    parts := [];
    var p := 0;
    assert [] + SplitFrom(strList, 0) == whole;
    while p < |strList|
      invariant SplitDone(strList, p, parts, whole)
      decreases |strList| - p
    {
      parts, p := ReadPart(strList, p, parts, whole);
    }
    SplitFinished(strList, p, parts, whole);
  }

  /** The body of the splitting loop: one element read and appended. */
  method ReadPart(s: string, p: nat, parts: seq<string>, ghost whole: seq<string>) returns (parts': seq<string>, p': nat)
    requires p < |s| && SplitDone(s, p, parts, whole)
    ensures p < p' && SplitDone(s, p', parts', whole)
  {
    var tmp, e := ReadToComma(s, p);
    SplitStep(s, p, parts, tmp, e, whole);
    parts', p' := parts + [tmp], e + 1;
  }

  lemma SplitFinished(s: string, p: nat, parts: seq<string>, whole: seq<string>)
    requires SplitDone(s, p, parts, whole) && p >= |s|
    ensures parts == whole
  {
    if p == |s| {
      assert parts + [] == parts;
    }
  }

  /** The invariant of the splitting loop: the elements read so far and
      the ones from `p` on make up the whole split. */
  predicate SplitDone(s: string, p: nat, parts: seq<string>, whole: seq<string>)
  {
    && p <= |s| + 1
    && (p <= |s| ==> parts + SplitFrom(s, p) == whole)
    && (p == |s| + 1 ==> parts == whole)
  }

  /** One iteration of the splitting loop. */
  lemma SplitStep(s: string, p: nat, parts: seq<string>, tmp: string, e: nat, whole: seq<string>)
    requires p < |s| && e == CommaEnd(s, p) && tmp == s[p..e]
    requires parts + SplitFrom(s, p) == whole
    ensures SplitDone(s, e + 1, parts + [tmp], whole)
  {
    if e < |s| {
      SplitFromMore(s, p);
      AppendAssoc(parts, [tmp], SplitFrom(s, e + 1));
    } else {
      SplitFromLast(s, p);
    }
  }

  /** An element followed by a comma, and the elements after it. */
  lemma SplitFromMore(s: string, i: nat)
    requires i < |s| && CommaEnd(s, i) < |s|
    ensures SplitFrom(s, i) == [s[i..CommaEnd(s, i)]] + SplitFrom(s, CommaEnd(s, i) + 1)
  {
  }

  /** The last element, running to the end. */
  lemma SplitFromLast(s: string, i: nat)
    requires i < |s| && CommaEnd(s, i) == |s|
    ensures SplitFrom(s, i) == [s[i..]]
  {
    assert s[i..CommaEnd(s, i)] == s[i..];
  }

  /** Copies the characters up to the next comma or the end. */
  method ReadToComma(s: string, start: nat) returns (tmp: string, p: nat)
    requires start <= |s|
    ensures p == CommaEnd(s, start) && tmp == s[start..p]
  {
    tmp := "";
    p := start;
    while p < |s| && s[p] != ','
      invariant start <= p <= |s|
      invariant tmp == s[start..p]
      invariant CommaEnd(s, p) == CommaEnd(s, start)
      decreases |s| - p
    {
      tmp := tmp + [s[p]];
      p := p + 1;
    }
  }

  /** Elements joined with commas. */
  function JoinCommas(parts: seq<string>): string
  {
    if parts == [] then "" else if |parts| == 1 then parts[0] else parts[0] + ("," + JoinCommas(parts[1..]))
  }

  predicate NoComma(t: string)
  {
    forall c :: 0 <= c < |t| ==> t[c] != ','
  }

  /** Splitting the comma-joined elements gives them back, provided they hold
      no comma and the list does not end with an empty element (that one
      would read as a trailing comma). */
  lemma SplitJoinCommas(parts: seq<string>)
    requires forall k :: 0 <= k < |parts| ==> NoComma(parts[k])
    requires parts != [] ==> parts[|parts| - 1] != ""
    ensures SplitCommas(JoinCommas(parts)) == parts
  {
    SplitJoinAt([], parts);
    assert [] + JoinCommas(parts) == JoinCommas(parts);
  }

  /** The same, for the joined elements written after any prefix. */
  lemma {:induction false} SplitJoinAt(pre: string, parts: seq<string>)
    requires forall k :: 0 <= k < |parts| ==> NoComma(parts[k])
    requires parts != [] ==> parts[|parts| - 1] != ""
    ensures SplitFrom(pre + JoinCommas(parts), |pre|) == parts
    decreases |parts|
  {
    var s := pre + JoinCommas(parts);
    if parts == [] {
      assert s == pre;
    } else if |parts| == 1 {
      var p0 := parts[0];
      FirstElement(pre, p0, "");
      assert s == pre + (p0 + "");
      SplitFromLast(s, |pre|);
    } else {
      var p0, rest := parts[0], JoinCommas(parts[1..]);
      FirstElement(pre, p0, "," + rest);
      var pre' := pre + p0 + ",";
      Concat4(pre, p0, ",", rest);
      SplitJoinAt(pre', parts[1..]);
      SplitFromMore(s, |pre|);
    }
  }

  /** The first element written after `pre` ends at the next comma. */
  lemma FirstElement(pre: string, p0: string, post: string)
    requires NoComma(p0) && (post != [] ==> post[0] == ',')
    ensures var s := pre + (p0 + post);
      CommaEnd(s, |pre|) == |pre| + |p0| && s[|pre|..|pre| + |p0|] == p0
  {
    var s := pre + (p0 + post);
    var e := |pre| + |p0|;
    ConcatMiddle(pre, p0, post);
    forall k | |pre| <= k < e
      ensures s[k] != ','
    {
      assert s[k] == s[|pre|..e][k - |pre|];
    }
    if e < |s| {
      assert s[e] == (p0 + post)[|p0|];
    }
    CommaEndAt(s, |pre|, e);
  }

  lemma {:induction false} CommaEndAt(s: string, i: nat, j: nat)
    requires i <= j <= |s|
    requires forall k :: i <= k < j ==> s[k] != ','
    requires j < |s| ==> s[j] == ','
    ensures CommaEnd(s, i) == j
    decreases j - i
  {
    if i < j {
      CommaEndAt(s, i + 1, j);
    }
  }

  /** Numbers written with `std::to_string` and joined with commas are read
      back by `wSupStrListToVector`. */
  lemma WSupListRoundTrip(ns: seq<Int32>, parts: seq<string>)
    requires |parts| == |ns|
    requires forall k :: 0 <= k < |ns| ==> parts[k] == IntToString(ns[k])
    ensures ParseInts(SplitCommas(JoinCommas(parts))) == Some(ns)
  {
    forall k | 0 <= k < |parts|
      ensures Stoi(parts[k]) == Some(ns[k] as int)
      ensures |parts[k]| >= 1
      ensures NoComma(parts[k])
    {
      StoiOfIntToString(ns[k]);
    }
    SplitJoinCommas(parts);
    ParseIntsOf(ns, parts);
  }

  lemma ParseIntsOf(ns: seq<int>, parts: seq<string>)
    requires |parts| == |ns|
    requires forall k :: 0 <= k < |parts| ==> Stoi(parts[k]) == Some(ns[k])
    ensures ParseInts(parts) == Some(ns)
  {
    var r := ParseInts(parts);
    assert r.Some?;
    assert r.value == ns;
  }
}
