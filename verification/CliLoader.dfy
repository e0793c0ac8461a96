/** The command-line loader: a token loop with one token of lookahead. */
module CliLoader {
  import opened Wrappers
  import opened Text
  import opened Values
  import opened Sources
  import opened Diagnostics
  import opened Facts
  import opened Policy
  import opened Keys
  import opened Parsing

  datatype UnknownInputPolicy = Ignore | Warn | Fail

  datatype CliRule = CliRule(option: string, key: string, ty: ValueType, takesValue: bool)

  datatype Cli = Cli(enabled: bool, unknown: UnknownInputPolicy, rules: seq<CliRule>,
                     policies: Policies, stod: DoubleParser)

  datatype Report = Report(facts: seq<Fact>, diags: seq<Diagnostic>)

  function FindRule(rules: seq<CliRule>, option: string): Option<CliRule> {
    if rules == [] then None
    else if rules[0].option == option then Some(rules[0])
    else FindRule(rules[1..], option)
  }

  /** The rule found is the first for the option; none is found exactly when there is none. */
  lemma {:induction false} FindRuleIsFirst(rules: seq<CliRule>, option: string)
    ensures match FindRule(rules, option)
            case None => forall rule :: rule in rules ==> rule.option != option
            case Some(found) =>
              exists i :: 0 <= i < |rules| && rules[i] == found && rules[i].option == option &&
                          forall j :: 0 <= j < i ==> rules[j].option != option
  {
    if rules != [] && rules[0].option != option {
      var rest := rules[1..];
      assert rules == [rules[0]] + rest;
      FindRuleIsFirst(rest, option);
      if FindRule(rest, option).Some? {
        var i :| 0 <= i < |rest| && rest[i] == FindRule(rest, option).value && rest[i].option == option &&
                 forall j :: 0 <= j < i ==> rest[j].option != option;
        assert rules[i + 1] == rest[i];
        forall j | 0 <= j < i + 1 ensures rules[j].option != option { assert j > 0 ==> rules[j] == rest[j - 1]; }
      }
    }
  }

  predicate IsOption(token: string) { token != "" && token[0] == '-' }

  function OptionName(token: string): string { token[..Find(token, '=')] }

  function InlineValue(token: string): Option<string> {
    var eq := Find(token, '=');
    if eq == |token| then None else Some(token[eq + 1..])
  }

  function CliSource(name: string): Source { Source(CLI, name) }

  function Unknown(cli: Cli, r: Report, name: string): Report {
    match cli.unknown
    case Ignore => r
    case Warn => r.(diags := r.diags + [Diagnostic(Warning, "CONFIG_CLI_UNKNOWN", "", CliSource(name))])
    case Fail => r.(diags := r.diags + [Diagnostic(Error, "CONFIG_CLI_UNKNOWN", "", CliSource(name))])
  }

  function Complain(r: Report, code: string, key: string, name: string): Report {
    r.(diags := r.diags + [Diagnostic(Error, code, key, CliSource(name))])
  }

  function AddFact(cli: Cli, r: Report, key: string, v: Value, name: string): Report {
    r.(facts := r.facts + [Fact(key, v, CliSource(name), PrecedenceFor(cli.policies, CLI), Application, |r.facts|)])
  }

  /** What an option with its value text adds. */
  function TakeValue(cli: Cli, r: Report, rule: CliRule, name: string, raw: string): Report {
    match ParseValue(raw, rule.ty, cli.stod)
    case None => Complain(r, "CONFIG_CLI_PARSE_FAILED", rule.key, name)
    case Some(v) => AddFact(cli, r, rule.key, v, name)
  }

  /** Does this token take its value from the next one? */
  predicate WantsNext(cli: Cli, token: string) {
    IsOption(token) && InlineValue(token).None? &&
    var rule := FindRule(cli.rules, OptionName(token));
    rule.Some? && ValidDotted(rule.value.key) && rule.value.takesValue
  }

  /** What the option token at the head of `args` adds, with the value it can see. */
  function ReadOption(cli: Cli, r: Report, token: string, next: Option<string>): Report {
    var name := OptionName(token);
    match FindRule(cli.rules, name)
    case None => Unknown(cli, r, name)
    case Some(rule) =>
      if !ValidDotted(rule.key) then Complain(r, "CONFIG_CLI_BAD_KEY", rule.key, name)
      else if !rule.takesValue then AddFact(cli, r, rule.key, Bool(true), name)
      else
        var raw := if InlineValue(token).Some? then InlineValue(token) else next;
        match raw
        case None => Complain(r, "CONFIG_CLI_MISSING_VALUE", rule.key, name)
        case Some(text) => TakeValue(cli, r, rule, name, text)
  }

  function ReadToken(cli: Cli, r: Report, args: seq<string>, first: bool): Report
    requires args != []
  {
    if IsOption(args[0]) then ReadOption(cli, r, args[0], if |args| > 1 then Some(args[1]) else None)
    else if first then r
    else Unknown(cli, r, args[0])
  }

  /** How many arguments the token at the head uses. */
  function Used(cli: Cli, args: seq<string>): (n: nat)
    requires args != []
    ensures 1 <= n <= 2 && n <= |args|
  {
    if WantsNext(cli, args[0]) && |args| > 1 then 2 else 1
  }

  function ReadArgs(cli: Cli, r: Report, args: seq<string>, first: bool): Report
    decreases |args|
  {
    if args == [] then r
    else ReadArgs(cli, ReadToken(cli, r, args, first), args[Used(cli, args)..], false)
  }

  function LoadCli(cli: Cli, args: seq<string>): Report {
    if cli.enabled then ReadArgs(cli, Report([], []), args, true) else Report([], [])
  }

  // ---- the imperative loader ----

  method ComplainUnknown(cli: Cli, name: string, facts: FactSet, log: DiagnosticLog)
    modifies log
    ensures Report(facts.facts, log.items) == Unknown(cli, Report(facts.facts, old(log.items)), name)
  {
    if cli.unknown == Warn { log.Add(Diagnostic(Warning, "CONFIG_CLI_UNKNOWN", "", CliSource(name))); }
    if cli.unknown == Fail { log.Add(Diagnostic(Error, "CONFIG_CLI_UNKNOWN", "", CliSource(name))); }
  }

  // One option token; says whether it used the argument after it as its value.
  method LoadOption(cli: Cli, token: string, next: Option<string>, facts: FactSet, log: DiagnosticLog)
    returns (usedNext: bool)
    requires Stamped(facts.facts) && IsOption(token)
    modifies facts, log
    ensures Stamped(facts.facts)
    ensures Report(facts.facts, log.items) ==
            ReadOption(cli, Report(old(facts.facts), old(log.items)), token, next)
    ensures usedNext <==> WantsNext(cli, token) && next.Some?
  {
    usedNext := false;
    var option, inlineValue := token, None;
    var eq := Find(token, '=');
    if eq != |token| {
      option := token[..eq];
      inlineValue := Some(token[eq + 1..]);
    }
    assert option == OptionName(token) && inlineValue == InlineValue(token);
    var found := FindRule(cli.rules, option);
    if found.None? {
      ComplainUnknown(cli, option, facts, log);
      return;
    }
    var rule := found.value;
    if !ValidDotted(rule.key) {
      log.AddError("CONFIG_CLI_BAD_KEY", rule.key, CliSource(option));
      return;
    }
    if !rule.takesValue {
      facts.Add(rule.key, Bool(true), CliSource(option), PrecedenceFor(cli.policies, CLI), Application);
      return;
    }
    var raw := inlineValue;
    if inlineValue.None? {
      raw := next;
      usedNext := next.Some?;
    }
    if raw.None? {
      log.AddError("CONFIG_CLI_MISSING_VALUE", rule.key, CliSource(option));
      return;
    }
    var parsed := ParseValue(raw.value, rule.ty, cli.stod);
    if parsed.None? {
      log.AddError("CONFIG_CLI_PARSE_FAILED", rule.key, CliSource(option));
      return;
    }
    facts.Add(rule.key, parsed.value, CliSource(option), PrecedenceFor(cli.policies, CLI), Application);
  }

  method LoadArgs(cli: Cli, args: seq<string>) returns (facts: FactSet, log: DiagnosticLog)
    ensures fresh(facts) && fresh(log) && Stamped(facts.facts)
    ensures Report(facts.facts, log.items) == LoadCli(cli, args)
  {
    facts := new FactSet();
    log := new DiagnosticLog();
    if !cli.enabled { return; }
    var i := 0;
    while i < |args|
      invariant 0 <= i <= |args|
      invariant fresh(facts) && fresh(log) && Stamped(facts.facts)
      invariant ReadArgs(cli, Report([], []), args, true) ==
                ReadArgs(cli, Report(facts.facts, log.items), args[i..], i == 0)
    {
      var token := args[i];
      ghost var rest := args[i..];
      assert rest[0] == token && rest[1..] == args[i + 1..];
      assert |rest| > 1 ==> rest[1] == args[i + 1] && rest[2..] == args[i + 2..];
      if i == 0 && !IsOption(token) { i := i + 1; continue; }
      if !IsOption(token) {
        ComplainUnknown(cli, token, facts, log);
        i := i + 1;
        continue;
      }
      var next := if i + 1 < |args| then Some(args[i + 1]) else None;
      var usedNext := LoadOption(cli, token, next, facts, log);
      if usedNext { i := i + 1; }
      i := i + 1;
    }
  }

  // ---- "opt=v" and "opt v" are one form ----

  /** Position i of the arguments is where the loop looks at a token, not the value of
      the option before it. */
  predicate TokenPosition(cli: Cli, args: seq<string>, i: nat)
    requires i < |args|
    decreases |args|
  {
    i == 0 || (Used(cli, args) <= i && TokenPosition(cli, args[Used(cli, args)..], i - Used(cli, args)))
  }

  predicate TakesValue(cli: Cli, option: string) {
    IsOption(option) && '=' !in option &&
    var rule := FindRule(cli.rules, option);
    rule.Some? && ValidDotted(rule.value.key) && rule.value.takesValue
  }

  lemma JoinedToken(option: string, v: string)
    requires '=' !in option
    ensures OptionName(option + "=" + v) == option && InlineValue(option + "=" + v) == Some(v)
    ensures OptionName(option) == option && InlineValue(option) == None
  {
    FindIs(option, '=', v);
    FindNone(option, '=');
    assert option + ['='] + v == option + "=" + v;
    assert (option + "=" + v)[..|option|] == option;
    assert (option + "=" + v)[|option| + 1..] == v;
    assert option[..|option|] == option;
  }

  lemma FormsAgreeHere(cli: Cli, r: Report, option: string, v: string, rest: seq<string>, first: bool)
    requires TakesValue(cli, option)
    ensures ReadArgs(cli, r, [option + "=" + v] + rest, first) == ReadArgs(cli, r, [option, v] + rest, first)
  {
    JoinedToken(option, v);
    var joined, split := [option + "=" + v] + rest, [option, v] + rest;
    assert Used(cli, joined) == 1 && joined[1..] == rest;
    assert Used(cli, split) == 2 && split[2..] == rest;
    assert ReadToken(cli, r, joined, first) == ReadToken(cli, r, split, first);
  }

  // Before the split token the two argument lists are read alike.
  lemma SplitLater(cli: Cli, r: Report, args: seq<string>, first: bool, i: nat, option: string, v: string)
    requires 0 < i < |args| && Used(cli, args) <= i
    ensures var split, u := args[..i] + [option, v] + args[i + 1..], Used(cli, args);
            split != [] && Used(cli, split) == u &&
            ReadToken(cli, r, split, first) == ReadToken(cli, r, args, first) &&
            split[u..] == args[u..][..i - u] + [option, v] + args[u..][i - u + 1..] &&
            args[u..][i - u] == args[i]
  {}

  /** Splitting "opt=v" into "opt" and "v" wherever the loop meets it changes nothing. */
  lemma {:induction false} FormsAgree(cli: Cli, r: Report, args: seq<string>, first: bool, i: nat,
                                      option: string, v: string)
    requires i < |args| && TokenPosition(cli, args, i)
    requires args[i] == option + "=" + v && TakesValue(cli, option)
    ensures ReadArgs(cli, r, args[..i] + [option, v] + args[i + 1..], first) == ReadArgs(cli, r, args, first)
    decreases |args|
  {
    var split := args[..i] + [option, v] + args[i + 1..];
    if i == 0 {
      assert args == [option + "=" + v] + args[1..];
      assert split == [option, v] + args[1..];
      FormsAgreeHere(cli, r, option, v, args[1..], first);
    } else {
      SplitLater(cli, r, args, first, i, option, v);
      var u := Used(cli, args);
      FormsAgree(cli, ReadToken(cli, r, args, first), args[u..], false, i - u, option, v);
    }
  }

  // ---- when an inline value is ignored ----

  /** An option whose rule has a valid key and takes no value. */
  predicate IsFlag(cli: Cli, option: string) {
    var rule := FindRule(cli.rules, option);
    rule.Some? && ValidDotted(rule.value.key) && !rule.value.takesValue
  }

  /** "opt=v" adds what "opt" alone adds, whatever v says, exactly when the option takes no
      value; it still loads then, as true and without a diagnostic, exactly when it is a flag. */
  lemma InlineValueIgnoredExactly(cli: Cli, r: Report, option: string, v: string, next: Option<string>)
    requires IsOption(option) && '=' !in option
    ensures var joined, alone := ReadOption(cli, r, option + "=" + v, next), ReadOption(cli, r, option, None);
            (joined == alone <==> !TakesValue(cli, option)) &&
            (joined == alone && |joined.facts| > |r.facts| <==> IsFlag(cli, option)) &&
            (IsFlag(cli, option) ==>
               joined == AddFact(cli, r, FindRule(cli.rules, option).value.key, Bool(true), option))
  {
    JoinedToken(option, v);
    var joined, alone := ReadOption(cli, r, option + "=" + v, next), ReadOption(cli, r, option, None);
    if TakesValue(cli, option) && |joined.diags| == |alone.diags| {
      assert |"CONFIG_CLI_PARSE_FAILED"| != |"CONFIG_CLI_MISSING_VALUE"|;
      assert joined.diags[|r.diags|].code != alone.diags[|r.diags|].code;
    }
  }

  lemma FlagIgnoresValue(cli: Cli, option: string, v: string, token: string)
    requires cli.enabled && IsOption(option) && '=' !in option && IsFlag(cli, option) && token == option + "=" + v
    ensures LoadCli(cli, [token]) ==
            AddFact(cli, Report([], []), FindRule(cli.rules, option).value.key, Bool(true), option)
  {
    JoinedToken(option, v);
    var after := ReadToken(cli, Report([], []), [token], true);
    assert Used(cli, [token]) == 1 && [token][1..] == [];
    assert ReadArgs(cli, after, [], false) == after;
    assert LoadCli(cli, [token]) == after;
  }

  /** "--flag=false" is true. */
  lemma FlagFalseIsTrue(cli: Cli, key: string)
    requires cli.enabled && FindRule(cli.rules, "--flag") == Some(CliRule("--flag", key, BoolType, false))
    requires ValidDotted(key)
    ensures LoadCli(cli, ["--flag=false"]) == AddFact(cli, Report([], []), key, Bool(true), "--flag")
  {
    FlagIgnoresValue(cli, "--flag", "false", "--flag=false");
  }

  // ---- every argument is accounted for ----

  /** The arguments consumed as the values of the options before them. */
  function SeparateValues(cli: Cli, args: seq<string>): nat
    decreases |args|
  {
    if args == [] then 0
    else Used(cli, args) - 1 + SeparateValues(cli, args[Used(cli, args)..])
  }

  function SkippedName(args: seq<string>): nat {
    if args != [] && !IsOption(args[0]) then 1 else 0
  }

  lemma {:induction false} TokensConserved(cli: Cli, r: Report, args: seq<string>, first: bool)
    requires !cli.unknown.Ignore?
    ensures var after := ReadArgs(cli, r, args, first);
            |args| + |r.facts| + |r.diags| ==
              (if first then SkippedName(args) else 0) + |after.facts| + |after.diags| + SeparateValues(cli, args)
    decreases |args|
  {
    if args != [] {
      TokensConserved(cli, ReadToken(cli, r, args, first), args[Used(cli, args)..], false);
    }
  }

  /** With unknown inputs reported, each argument is the skipped program name, a fact, a
      diagnostic or an option's separate value. */
  lemma ArgumentsConserved(cli: Cli, args: seq<string>)
    requires cli.enabled && !cli.unknown.Ignore?
    ensures var r := LoadCli(cli, args);
            |args| == SkippedName(args) + |r.facts| + |r.diags| + SeparateValues(cli, args)
  {
    TokensConserved(cli, Report([], []), args, true);
  }

  /** Splitting "opt=v" anywhere the loop meets it leaves the whole report unchanged. */
  lemma LoadFormsAgree(cli: Cli, args: seq<string>, i: nat, option: string, v: string)
    requires i < |args| && TokenPosition(cli, args, i)
    requires args[i] == option + "=" + v && TakesValue(cli, option)
    ensures LoadCli(cli, args[..i] + [option, v] + args[i + 1..]) == LoadCli(cli, args)
  {
    FormsAgree(cli, Report([], []), args, true, i, option, v);
  }
}
