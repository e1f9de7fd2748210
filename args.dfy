/**
 * The configuration resolver: parseArgs and normalizeFormat (src/index.ts:23-75).
 * showHelpAndExit becomes an Exit value carrying the status it would exit with:
 * 0 when called without a message (help), 1 with one (usage error).
 */
module Args {
  import opened Wrappers
  import opened Formats
  import opened Paths

  /** The Options record; quality is absent until -q/--quality sets it. */
  datatype Options = Options(
    dir: DirPath,
    recursive: bool,
    quality: Option<int>,
    force: bool,
    removeOriginal: bool)

  datatype ParseOutcome = Parsed(format: Format, options: Options) | Exit(status: int)

  /** How the flag loop ends: with the options built so far, or by exiting. */
  datatype FlagOutcome = Done(options: Options) | Stop(status: int)

  const HelpStatus := 0
  const UsageStatus := 1

  /** The options record before any flag is read (src/index.ts:37-42). */
  function Defaults(cwd: DirPath): Options {
    Options(cwd, false, None, false, false)
  }

  predicate IsHelp(t: string) { t == "--help" || t == "-h" }

  /** Every token the flag loop recognizes. */
  predicate IsKnownFlag(t: string) {
    t in {"--recursive", "-r", "--force", "-f", "--remove-original", "--rm", "--dir", "--quality", "-q", "--help", "-h"}
  }

  function DigitValue(c: char): nat
    requires '0' <= c <= '9'
  {
    c as int - '0' as int
  }

  predicate AllDigits(s: string) {
    forall i :: 0 <= i < |s| ==> '0' <= s[i] <= '9'
  }

  /** The value of a string of decimal digits. */
  function DecimalValue(s: string): nat
    requires AllDigits(s)
  {
    if s == [] then 0 else 10 * DecimalValue(s[..|s| - 1]) + DigitValue(s[|s| - 1])
  }

  /**
   * The numeric reading of a non-empty quality token: an optional sign
   * followed by one or more decimal digits; anything else is NaN.
   */
  function ParseNumber(s: string): (r: Option<int>)
    ensures r.Some? ==> s != "" && (r.value < 0 ==> s[0] == '-')
    ensures r.Some? && s[0] == '-' ==> r.value <= 0
  {
    if s != [] && (s[0] == '-' || s[0] == '+') then
      var digits := s[1..];
      if digits != [] && AllDigits(digits) then
        Some(if s[0] == '-' then -(DecimalValue(digits) as int) else DecimalValue(digits))
      else None
    else if s != [] && AllDigits(s) then Some(DecimalValue(s))
    else None
  }

  /** The decimal digits of n, most significant first, without leading zeros. */
  function Digits(n: nat): (s: string)
    ensures s != [] && AllDigits(s)
  {
    var d := ('0' as int + n % 10) as char;
    if n < 10 then [d] else Digits(n / 10) + [d]
  }

  lemma {:induction false} DigitsValue(n: nat)
    ensures DecimalValue(Digits(n)) == n
  {
    var s := Digits(n);
    var d := ('0' as int + n % 10) as char;
    assert DigitValue(d) == n % 10;
    if n >= 10 {
      DigitsValue(n / 10);
      assert s == Digits(n / 10) + [d];
      assert s[..|s| - 1] == Digits(n / 10);
      assert DecimalValue(s) == 10 * (n / 10) + n % 10;
    } else {
      assert s == [d];
    }
  }

  /** Every integer written in decimal, with a minus sign when negative, reads back as itself. */
  lemma NumberRoundTrip(n: int)
    ensures ParseNumber(if n < 0 then "-" + Digits(-n) else Digits(n)) == Some(n)
  {
    if n < 0 {
      DigitsValue(-n);
      NegativeReads(Digits(-n));
    } else {
      DigitsValue(n);
      UnsignedReads(Digits(n));
    }
  }

  /** A run of digits reads as its decimal value. */
  lemma UnsignedReads(s: string)
    requires s != [] && AllDigits(s)
    ensures ParseNumber(s) == Some(DecimalValue(s))
  {
    assert '0' <= s[0] <= '9';
  }

  /** A minus sign before a run of digits reads as the negated decimal value. */
  lemma NegativeReads(s: string)
    requires s != [] && AllDigits(s)
    ensures ParseNumber("-" + s) == Some(-(DecimalValue(s) as int))
  {
    assert ("-" + s)[1..] == s;
  }

  /**
   * The flag loop from position i on (src/index.ts:44-67). A --dir or
   * -q/--quality value that is missing or empty, a quality that is not a
   * number, and an unknown token exit with status 1; a help flag exits with 0.
   */
  function InterpretFlags(argv: seq<string>, i: nat, o: Options, resolve: string -> DirPath): (r: FlagOutcome)
    ensures r.Stop? ==> r.status == HelpStatus || r.status == UsageStatus
    ensures r.Done? ==> (o.recursive ==> r.options.recursive) && (o.force ==> r.options.force)
                        && (o.removeOriginal ==> r.options.removeOriginal)
    decreases |argv| - i
  {
    if i >= |argv| then Done(o)
    else
      var arg := argv[i];
      if arg == "--recursive" || arg == "-r" then
        InterpretFlags(argv, i + 1, o.(recursive := true), resolve)
      else if arg == "--force" || arg == "-f" then
        InterpretFlags(argv, i + 1, o.(force := true), resolve)
      else if arg == "--remove-original" || arg == "--rm" then
        InterpretFlags(argv, i + 1, o.(removeOriginal := true), resolve)
      else if arg == "--dir" then
        if i + 1 >= |argv| || argv[i + 1] == "" then Stop(UsageStatus)
        else InterpretFlags(argv, i + 2, o.(dir := resolve(argv[i + 1])), resolve)
      else if arg == "--quality" || arg == "-q" then
        if i + 1 >= |argv| || ParseNumber(argv[i + 1]).None? then Stop(UsageStatus)
        else InterpretFlags(argv, i + 2, o.(quality := ParseNumber(argv[i + 1])), resolve)
      else if IsHelp(arg) then Stop(HelpStatus)
      else Stop(UsageStatus)
  }

  /** What parseArgs returns, or the status it exits with, for the tokens after the program name. */
  function Interpret(argv: seq<string>, cwd: DirPath, resolve: string -> DirPath): (r: ParseOutcome)
    ensures r.Exit? ==> r.status == HelpStatus || r.status == UsageStatus
    ensures r.Parsed? ==> argv != [] && Lower(argv[0]) in SupportedOutputs && r.format == NormalizeFormat(Lower(argv[0]))
  {
    if |argv| == 0 then Exit(UsageStatus)
    else if IsHelp(argv[0]) then Exit(HelpStatus)
    else
      var formatArg := Lower(argv[0]);
      if formatArg !in SupportedOutputs then Exit(UsageStatus)
      else
        match InterpretFlags(argv, 1, Defaults(cwd), resolve)
        case Stop(s) => Exit(s)
        case Done(o) => Parsed(NormalizeFormat(formatArg), o)
  }

  /** parseArgs, as the source writes it: a cursor over the tokens and an options record updated field by field. */
  method ParseArgs(argv: seq<string>, cwd: DirPath, resolve: string -> DirPath) returns (r: ParseOutcome)
    ensures r == Interpret(argv, cwd, resolve)
  {
    if |argv| == 0 {
      return Exit(UsageStatus);
    }
    if IsHelp(argv[0]) {
      return Exit(HelpStatus);
    }
    var formatArg := Lower(argv[0]);
    if formatArg !in SupportedOutputs {
      return Exit(UsageStatus);
    }
    var options := Defaults(cwd);
    var i := 1;
    while i < |argv|
      invariant 1 <= i
      invariant InterpretFlags(argv, i, options, resolve) == InterpretFlags(argv, 1, Defaults(cwd), resolve)
      decreases |argv| - i
    {
      var arg := argv[i];
      if arg == "--recursive" || arg == "-r" {
        options := options.(recursive := true);
      } else if arg == "--force" || arg == "-f" {
        options := options.(force := true);
      } else if arg == "--remove-original" || arg == "--rm" {
        options := options.(removeOriginal := true);
      } else if arg == "--dir" {
        if i + 1 >= |argv| || argv[i + 1] == "" {
          return Exit(UsageStatus);
        }
        options := options.(dir := resolve(argv[i + 1]));
        i := i + 1;
      } else if arg == "--quality" || arg == "-q" {
        if i + 1 >= |argv| {
          return Exit(UsageStatus);
        }
        var q := ParseNumber(argv[i + 1]);
        if q.None? {
          return Exit(UsageStatus);
        }
        options := options.(quality := q);
        i := i + 1;
      } else if IsHelp(arg) {
        return Exit(HelpStatus);
      } else {
        return Exit(UsageStatus);
      }
      i := i + 1;
    }
    return Parsed(NormalizeFormat(formatArg), options);
  }

  /** No tokens, or an unsupported first token, is a usage error; a help flag first is help. */
  lemma FirstTokenDecides(argv: seq<string>, cwd: DirPath, resolve: string -> DirPath)
    ensures argv == [] ==> Interpret(argv, cwd, resolve) == Exit(UsageStatus)
    ensures argv != [] && IsHelp(argv[0]) ==> Interpret(argv, cwd, resolve) == Exit(HelpStatus)
    ensures argv != [] && !IsHelp(argv[0]) && Lower(argv[0]) !in SupportedOutputs ==>
              Interpret(argv, cwd, resolve) == Exit(UsageStatus)
  {
  }

  /**
   * A supported format token alone parses, in any letter case, to its
   * normalized format ("jpg" to jpeg) with the default options.
   */
  lemma FormatAloneGivesDefaults(t: string, cwd: DirPath, resolve: string -> DirPath)
    requires !IsHelp(t) && Lower(t) in SupportedOutputs
    ensures Interpret([t], cwd, resolve) == Parsed(NormalizeFormat(Lower(t)), Defaults(cwd))
    ensures Name(Interpret([t], cwd, resolve).format) == (if Lower(t) == "jpg" then "jpeg" else Lower(t))
  {
  }

  /**
   * Matching is on the lower-cased first token, but the help check is not:
   * "-H" and "--HELP" are usage errors, every other token behaves as its
   * lower-cased form.
   */
  lemma FormatTokenCaseInsensitive(argv: seq<string>, cwd: DirPath, resolve: string -> DirPath)
    requires argv != [] && !IsHelp(argv[0]) && !IsHelp(Lower(argv[0]))
    ensures Interpret(argv, cwd, resolve) == Interpret([Lower(argv[0])] + argv[1..], cwd, resolve)
  {
    var argv' := [Lower(argv[0])] + argv[1..];
    LowerIdempotent(argv[0]);
    FlagsDependOnlyOnTail(argv, argv', 1, Defaults(cwd), resolve);
  }

  lemma UpperCaseHelpIsUsageError(cwd: DirPath, resolve: string -> DirPath)
    ensures Interpret(["-H"], cwd, resolve) == Exit(UsageStatus)
    ensures Interpret(["--HELP"], cwd, resolve) == Exit(UsageStatus)
  {
    assert Lower("-H") == "-h";
    assert Lower("--HELP") == "--help";
  }

  /** The flag loop reads only the tokens from its cursor on. */
  lemma {:induction false} FlagsDependOnlyOnTail(a: seq<string>, b: seq<string>, i: nat, o: Options, resolve: string -> DirPath)
    requires |a| == |b| && i <= |a| && a[i..] == b[i..]
    ensures InterpretFlags(a, i, o, resolve) == InterpretFlags(b, i, o, resolve)
    decreases |a| - i
  {
    if i < |a| {
      assert a[i] == a[i..][0] == b[i];
      if i + 1 < |a| {
        assert a[i + 1] == a[i..][1] == b[i + 1];
        assert a[i + 1..] == a[i..][1..] == b[i + 1..];
        FlagsDependOnlyOnTail(a, b, i + 1, o.(recursive := true), resolve);
        FlagsDependOnlyOnTail(a, b, i + 1, o.(force := true), resolve);
        FlagsDependOnlyOnTail(a, b, i + 1, o.(removeOriginal := true), resolve);
        if i + 2 <= |a| {
          assert a[i + 2..] == a[i..][2..] == b[i + 2..];
          FlagsDependOnlyOnTail(a, b, i + 2, o.(dir := resolve(a[i + 1])), resolve);
          FlagsDependOnlyOnTail(a, b, i + 2, o.(quality := ParseNumber(a[i + 1])), resolve);
        }
      } else {
        FlagsDependOnlyOnTail(a, b, i + 1, o.(recursive := true), resolve);
        FlagsDependOnlyOnTail(a, b, i + 1, o.(force := true), resolve);
        FlagsDependOnlyOnTail(a, b, i + 1, o.(removeOriginal := true), resolve);
      }
    }
  }

  /**
   * When the loop runs off the end of `a` without exiting, tokens appended
   * after `a` are read starting from the options it reached: no flag of `a`
   * looks past the end of `a`.
   */
  lemma {:induction false} FlagsPrefix(a: seq<string>, b: seq<string>, i: nat, o: Options, resolve: string -> DirPath)
    requires i <= |a| && InterpretFlags(a, i, o, resolve).Done?
    ensures InterpretFlags(a + b, i, o, resolve) ==
            InterpretFlags(a + b, |a|, InterpretFlags(a, i, o, resolve).options, resolve)
    decreases |a| - i
  {
    if i < |a| {
      var arg := a[i];
      assert (a + b)[i] == arg;
      if arg == "--recursive" || arg == "-r" {
        FlagsPrefix(a, b, i + 1, o.(recursive := true), resolve);
      } else if arg == "--force" || arg == "-f" {
        FlagsPrefix(a, b, i + 1, o.(force := true), resolve);
      } else if arg == "--remove-original" || arg == "--rm" {
        FlagsPrefix(a, b, i + 1, o.(removeOriginal := true), resolve);
      } else if arg == "--dir" {
        assert (a + b)[i + 1] == a[i + 1];
        FlagsPrefix(a, b, i + 2, o.(dir := resolve(a[i + 1])), resolve);
      } else if arg == "--quality" || arg == "-q" {
        assert (a + b)[i + 1] == a[i + 1];
        FlagsPrefix(a, b, i + 2, o.(quality := ParseNumber(a[i + 1])), resolve);
      }
    }
  }

  /** Tokens appended after a complete command line are read from the options it produced. */
  lemma Append(argv: seq<string>, rest: seq<string>, cwd: DirPath, resolve: string -> DirPath)
    requires Interpret(argv, cwd, resolve).Parsed?
    ensures var p := Interpret(argv, cwd, resolve);
            Interpret(argv + rest, cwd, resolve) ==
              match InterpretFlags(argv + rest, |argv|, p.options, resolve)
              case Stop(s) => Exit(s)
              case Done(o) => Parsed(p.format, o)
  {
    assert (argv + rest)[0] == argv[0];
    FlagsPrefix(argv, rest, 1, Defaults(cwd), resolve);
  }

  /** -r, -f and --rm (and their long forms) set their own field to true and change nothing else. */
  lemma SwitchesSetOnlyTheirField(argv: seq<string>, cwd: DirPath, resolve: string -> DirPath)
    requires Interpret(argv, cwd, resolve).Parsed?
    ensures var p := Interpret(argv, cwd, resolve);
            && Interpret(argv + ["-r"], cwd, resolve) == Parsed(p.format, p.options.(recursive := true))
            && Interpret(argv + ["--recursive"], cwd, resolve) == Parsed(p.format, p.options.(recursive := true))
            && Interpret(argv + ["-f"], cwd, resolve) == Parsed(p.format, p.options.(force := true))
            && Interpret(argv + ["--force"], cwd, resolve) == Parsed(p.format, p.options.(force := true))
            && Interpret(argv + ["--rm"], cwd, resolve) == Parsed(p.format, p.options.(removeOriginal := true))
            && Interpret(argv + ["--remove-original"], cwd, resolve) == Parsed(p.format, p.options.(removeOriginal := true))
  {
    Append(argv, ["-r"], cwd, resolve);
    Append(argv, ["--recursive"], cwd, resolve);
    Append(argv, ["-f"], cwd, resolve);
    Append(argv, ["--force"], cwd, resolve);
    Append(argv, ["--rm"], cwd, resolve);
    Append(argv, ["--remove-original"], cwd, resolve);
  }

  /**
   * --dir takes exactly the next token, whatever it looks like, as its path;
   * a missing or empty value exits with status 1.
   */
  lemma DirTakesNextToken(argv: seq<string>, p: string, rest: seq<string>, cwd: DirPath, resolve: string -> DirPath)
    requires Interpret(argv, cwd, resolve).Parsed?
    ensures Interpret(argv + ["--dir"], cwd, resolve) == Exit(UsageStatus)
    ensures p == "" ==> Interpret(argv + ["--dir", p] + rest, cwd, resolve) == Exit(UsageStatus)
    ensures p != "" ==>
              var q := Interpret(argv, cwd, resolve);
              Interpret(argv + ["--dir", p], cwd, resolve) == Parsed(q.format, q.options.(dir := resolve(p))) &&
              (rest != [] && !IsKnownFlag(rest[0]) ==> Interpret(argv + ["--dir", p] + rest, cwd, resolve) == Exit(UsageStatus))
  {
    Append(argv, ["--dir"], cwd, resolve);
    var full := argv + ["--dir", p] + rest;
    assert full == argv + (["--dir", p] + rest);
    Append(argv, ["--dir", p] + rest, cwd, resolve);
    Append(argv, ["--dir", p], cwd, resolve);
    assert full[|argv|] == "--dir" && full[|argv| + 1] == p;
    if p != "" {
      var q := Interpret(argv, cwd, resolve);
      var o' := q.options.(dir := resolve(p));
      FlagsDependOnlyOnTail(full, (argv + ["--dir", p]) + rest, |argv| + 2, o', resolve);
      assert Interpret(argv + ["--dir", p], cwd, resolve) == Parsed(q.format, o');
      Append(argv + ["--dir", p], rest, cwd, resolve);
      if rest != [] {
        assert full[|argv| + 2] == rest[0];
      }
    }
  }

  /**
   * -q/--quality takes exactly the next token; a missing, empty or
   * non-numeric value exits with status 1; no range check is made.
   */
  lemma QualityTakesNumber(argv: seq<string>, flag: string, v: string, cwd: DirPath, resolve: string -> DirPath)
    requires Interpret(argv, cwd, resolve).Parsed?
    requires flag == "-q" || flag == "--quality"
    ensures Interpret(argv + [flag], cwd, resolve) == Exit(UsageStatus)
    ensures ParseNumber(v).None? ==> Interpret(argv + [flag, v], cwd, resolve) == Exit(UsageStatus)
    ensures v == "" ==> Interpret(argv + [flag, v], cwd, resolve) == Exit(UsageStatus)
    ensures ParseNumber(v).Some? ==>
              var q := Interpret(argv, cwd, resolve);
              Interpret(argv + [flag, v], cwd, resolve) == Parsed(q.format, q.options.(quality := ParseNumber(v)))
  {
    Append(argv, [flag], cwd, resolve);
    Append(argv, [flag, v], cwd, resolve);
  }

  /** An unknown token exits with status 1 and a later help flag with 0, whatever follows. */
  lemma UnknownOrHelpStops(argv: seq<string>, t: string, rest: seq<string>, cwd: DirPath, resolve: string -> DirPath)
    requires Interpret(argv, cwd, resolve).Parsed?
    ensures !IsKnownFlag(t) ==> Interpret(argv + [t] + rest, cwd, resolve) == Exit(UsageStatus)
    ensures IsHelp(t) ==> Interpret(argv + [t] + rest, cwd, resolve) == Exit(HelpStatus)
  {
    assert argv + [t] + rest == argv + ([t] + rest);
    Append(argv, [t] + rest, cwd, resolve);
    assert (argv + [t] + rest)[|argv|] == t;
  }
}
