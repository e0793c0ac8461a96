/** What each command-line option does, and about which key and option. */
module CliLaws {
  import opened Wrappers
  import opened Text
  import opened Values
  import opened Sources
  import opened Diagnostics
  import opened Facts
  import opened Keys
  import opened Parsing
  import opened CliLoader

  /** A report of one fact of the command line. */
  predicate Adds(cli: Cli, r: Report, key: string, v: Value, option: string) {
    r == Report([Fact(key, v, Source(CLI, option),
                      if CLI in cli.policies.precedence then cli.policies.precedence[CLI] else 0, Application, 0)], [])
  }

  /** A report of one diagnostic about an option. */
  predicate Refuses(r: Report, code: string, key: string, option: string) {
    r == Report([], [Diagnostic(Error, code, key, Source(CLI, option))])
  }

  lemma PairIsRead(cli: Cli, option: string, v: string)
    requires cli.enabled && TakesValue(cli, option)
    ensures LoadCli(cli, [option, v]) == ReadOption(cli, Report([], []), option, Some(v))
  {
    var args := [option, v];
    JoinedToken(option, v);
    assert Used(cli, args) == 2 && args[2..] == [];
    assert ReadArgs(cli, ReadToken(cli, Report([], []), args, true), [], false) ==
           ReadToken(cli, Report([], []), args, true);
  }

  /** An option that takes a value, followed by it, gives one fact under the rule's key, the
      value taken at the rule's type, or one error when the text is none of that type. */
  lemma OptionMeans(cli: Cli, option: string, v: string)
    requires cli.enabled && TakesValue(cli, option)
    ensures var rule, r := FindRule(cli.rules, option).value, LoadCli(cli, [option, v]);
            match ParseValue(v, rule.ty, cli.stod)
            case Some(value) => value.Type() == rule.ty && Adds(cli, r, rule.key, value, option)
            case None => Refuses(r, "CONFIG_CLI_PARSE_FAILED", rule.key, option)
  {
    PairIsRead(cli, option, v);
    JoinedToken(option, v);
  }

  /** The same, type by type. */
  lemma TypedOptionMeans(cli: Cli, option: string, v: string)
    requires cli.enabled && TakesValue(cli, option)
    ensures var rule, r := FindRule(cli.rules, option).value, LoadCli(cli, [option, v]);
            match rule.ty
            case NullType => Adds(cli, r, rule.key, Null, option)
            case StringType => Adds(cli, r, rule.key, Str(v), option)
            case BoolType =>
              if MeansTrue(v) then Adds(cli, r, rule.key, Bool(true), option)
              else if MeansFalse(v) then Adds(cli, r, rule.key, Bool(false), option)
              else Refuses(r, "CONFIG_CLI_PARSE_FAILED", rule.key, option)
            case IntType =>
              if MeansInt(v) then Adds(cli, r, rule.key, Int(NumeralValue(Trim(v))), option)
              else Refuses(r, "CONFIG_CLI_PARSE_FAILED", rule.key, option)
            case DoubleType =>
              if cli.stod(Trim(v)).Some? then Adds(cli, r, rule.key, Double(cli.stod(Trim(v)).value), option)
              else Refuses(r, "CONFIG_CLI_PARSE_FAILED", rule.key, option)
  {
    OptionMeans(cli, option, v);
    ParseValueExact(v, FindRule(cli.rules, option).value.ty, cli.stod);
  }

  /** An option alone: unknown ones are treated as the loader's policy says, a rule with an
      ill-formed key is refused, a flag is true, and the value of any other is missing. */
  lemma LoneOptionMeans(cli: Cli, option: string)
    requires cli.enabled && option != "" && option[0] == '-' && '=' !in option
    ensures var found, r := FindRule(cli.rules, option), LoadCli(cli, [option]);
            if found.None? then
              match cli.unknown
              case Ignore => r == Report([], [])
              case Warn => r == Report([], [Diagnostic(Warning, "CONFIG_CLI_UNKNOWN", "", Source(CLI, option))])
              case Fail => Refuses(r, "CONFIG_CLI_UNKNOWN", "", option)
            else if !ValidDotted(found.value.key) then Refuses(r, "CONFIG_CLI_BAD_KEY", found.value.key, option)
            else if !found.value.takesValue then Adds(cli, r, found.value.key, Bool(true), option)
            else Refuses(r, "CONFIG_CLI_MISSING_VALUE", found.value.key, option)
  {
    var args := [option];
    JoinedToken(option, "");
    assert Used(cli, args) == 1 && args[1..] == [];
    assert ReadArgs(cli, ReadToken(cli, Report([], []), args, true), [], false) ==
           ReadToken(cli, Report([], []), args, true);
  }

  /** A first argument that is no option is the program's name; one later is an unknown input. */
  lemma PositionalMeans(cli: Cli, name: string, token: string)
    requires cli.enabled && (name == "" || name[0] != '-') && (token == "" || token[0] != '-')
    ensures LoadCli(cli, [name]) == Report([], [])
    ensures var r := LoadCli(cli, [name, token]);
            match cli.unknown
            case Ignore => r == Report([], [])
            case Warn => r == Report([], [Diagnostic(Warning, "CONFIG_CLI_UNKNOWN", "", Source(CLI, token))])
            case Fail => Refuses(r, "CONFIG_CLI_UNKNOWN", "", token)
  {
    assert [name][1..] == [] && [name, token][1..] == [token] && [token][1..] == [];
    assert LoadCli(cli, [name]) == ReadArgs(cli, Report([], []), [], false);
    assert LoadCli(cli, [name, token]) == ReadArgs(cli, Report([], []), [token], false);
    assert ReadArgs(cli, Report([], []), [token], false) ==
           ReadArgs(cli, CliLoader.Unknown(cli, Report([], []), token), [], false);
  }

  /** An option takes the next argument as its value exactly when it has none of its own and
      its rule has a valid key and takes one; otherwise that argument is looked at by itself. */
  lemma NextArgumentMeans(cli: Cli, r: Report, token: string, next: string, rest: seq<string>, first: bool)
    requires token != "" && token[0] == '-'
    ensures var found := FindRule(cli.rules, OptionName(token));
            var takes := '=' !in token && found.Some? && ValidDotted(found.value.key) && found.value.takesValue;
            ReadArgs(cli, r, [token, next] + rest, first) ==
              if takes then ReadArgs(cli, ReadOption(cli, r, token, Some(next)), rest, false)
              else ReadArgs(cli, ReadOption(cli, r, token, None), [next] + rest, false)
  {
    var args := [token, next] + rest;
    assert args[1..] == [next] + rest && args[2..] == rest;
    if '=' !in token { FindNone(token, '='); }
  }

  /** A loader that is not enabled says nothing. */
  lemma DisabledSaysNothing(cli: Cli, args: seq<string>)
    requires !cli.enabled
    ensures LoadCli(cli, args) == Report([], [])
  {}

  lemma DigitsOfPort()
    ensures DecimalText(10001) == "10001"
  {
    assert DecimalText(10) == "10";
    assert DecimalText(1000) == DecimalText(100) + "0" && DecimalText(100) == DecimalText(10) + "0";
  }

  lemma PrintedMeansInt(n: int64)
    ensures MeansInt(IntText(n)) && NumeralValue(Trim(IntText(n))) == n
  {
    IntTextIsNumeral(n);
    TrimTight(IntText(n));
  }

  /** "--port 10001" under an Int rule is the integer. */
  lemma PortIsInt(cli: Cli, key: string)
    requires cli.enabled && FindRule(cli.rules, "--port") == Some(CliRule("--port", key, IntType, true))
    requires ValidDotted(key)
    ensures Adds(cli, LoadCli(cli, ["--port", "10001"]), key, Int(10001), "--port")
  {
    TypedOptionMeans(cli, "--port", "10001");
    DigitsOfPort();
    PrintedMeansInt(10001);
  }
}
