/** Which source overrides which, on the precedence table and the facts as they were added. */
module PrecedenceLaws {
  import opened Sources
  import opened Facts
  import opened Policy
  import opened Resolver
  import opened ResolverLaws
  import opened OrderLaws
  import opened FileLoader
  import CliLoader

  // ---- standing ----

  /** How much a fact counts: the precedence it was given, or else that of its kind in the
      table, or else nothing. */
  function Standing(f: Fact, table: map<SourceKind, int>): int {
    if f.precedence != 0 then f.precedence
    else if f.source.kind in table then table[f.source.kind]
    else 0
  }

  /** f stands above g, or beside it and was added later. */
  predicate Above(f: Fact, g: Fact, table: map<SourceKind, int>) {
    Standing(f, table) > Standing(g, table) ||
    (Standing(f, table) == Standing(g, table) && f.order > g.order)
  }

  lemma StandingIsEffective(f: Fact, p: Policies)
    ensures Effective(f, p) == f.(precedence := Standing(f, p.precedence))
  {}

  // The ruling comes from a conforming fact that stands above all others.
  lemma RuledStandsAbove(facts: seq<Fact>, p: Policies, key: string) returns (w: Fact)
    requires Stamped(facts) && RulingAt(facts, p, key).Ruling?
    requires ByPrecedence(PolicyFor(p, key).conflict)
    ensures w in facts && Conforms(w, p, key) && RulingAt(facts, p, key) == Ruling(w.value, w.source)
    ensures forall g :: g in facts && Conforms(g, p, key) && g != w ==> Above(w, g, p.precedence)
  {
    var c := RulingIsWinners(facts, p, key);
    w := FromFact(facts, p, key, c);
    StandingIsEffective(w, p);
    forall g | g in facts && Conforms(g, p, key) && g != w ensures Above(w, g, p.precedence) {
      HasFact(facts, p, key, g);
      StandingIsEffective(g, p);
      assert g.order != w.order;
    }
  }

  /** Where precedence decides, a conforming fact is ruled if it stands above every other
      conforming one. */
  lemma HighestStandingRules(facts: seq<Fact>, p: Policies, key: string, f: Fact)
    requires Stamped(facts) && f in facts && Conforms(f, p, key)
    requires ByPrecedence(PolicyFor(p, key).conflict)
    requires forall g :: g in facts && Conforms(g, p, key) && g != f ==> Above(f, g, p.precedence)
    ensures RulingAt(facts, p, key) == Ruling(f.value, f.source)
  {
    HasFact(facts, p, key, f);
    var w := RuledStandsAbove(facts, p, key);
    assert w != f ==> Above(w, f, p.precedence) && Above(f, w, p.precedence);
  }

  /** And one that stands below another is not: the ruling is some third fact's or that one's. */
  lemma LowerStandingNeverRules(facts: seq<Fact>, p: Policies, key: string, f: Fact, g: Fact) returns (w: Fact)
    requires Stamped(facts) && f in facts && Conforms(f, p, key) && g in facts && Conforms(g, p, key)
    requires ByPrecedence(PolicyFor(p, key).conflict) && Above(f, g, p.precedence)
    ensures w in facts && Conforms(w, p, key) && w != g && RulingAt(facts, p, key) == Ruling(w.value, w.source)
  {
    HasFact(facts, p, key, f);
    w := RuledStandsAbove(facts, p, key);
  }

  // ---- by kind, by given precedence, by neither ----

  /** Of two facts added without a precedence, the one whose kind is higher in the table
      overrides the other; it rules if its kind is higher than that of every other. */
  lemma HigherKindOverrides(facts: seq<Fact>, p: Policies, key: string, f: Fact, g: Fact) returns (w: Fact)
    requires Stamped(facts) && f in facts && Conforms(f, p, key) && g in facts && Conforms(g, p, key)
    requires PolicyFor(p, key).conflict.HighestPrecedenceWins? && f.precedence == 0 && g.precedence == 0
    requires f.source.kind in p.precedence && g.source.kind in p.precedence
    requires p.precedence[f.source.kind] > p.precedence[g.source.kind]
    ensures w in facts && Conforms(w, p, key) && w != g && RulingAt(facts, p, key) == Ruling(w.value, w.source)
    ensures (forall h :: h in facts && Conforms(h, p, key) && h != f ==>
               h.precedence == 0 && h.source.kind in p.precedence &&
               p.precedence[h.source.kind] < p.precedence[f.source.kind]) ==> w == f
  {
    HasFact(facts, p, key, f);
    w := RuledStandsAbove(facts, p, key);
  }

  /** A precedence that was given is compared as it is, whatever the kinds' places in the table. */
  lemma GivenPrecedenceOverrides(facts: seq<Fact>, p: Policies, key: string, f: Fact, g: Fact) returns (w: Fact)
    requires Stamped(facts) && f in facts && Conforms(f, p, key) && g in facts && Conforms(g, p, key)
    requires PolicyFor(p, key).conflict.HighestPrecedenceWins?
    requires f.precedence > g.precedence && f.precedence != 0 && g.precedence != 0
    ensures w in facts && Conforms(w, p, key) && w != g && RulingAt(facts, p, key) == Ruling(w.value, w.source)
  {
    w := LowerStandingNeverRules(facts, p, key, f, g);
  }

  /** A kind that the table does not have counts as zero: its facts stand above exactly the
      facts that count for less, and below those that count for more. */
  lemma AbsentKindCountsZero(facts: seq<Fact>, p: Policies, key: string, f: Fact, g: Fact) returns (w: Fact)
    requires Stamped(facts) && f in facts && Conforms(f, p, key) && g in facts && Conforms(g, p, key)
    requires PolicyFor(p, key).conflict.HighestPrecedenceWins?
    requires f.precedence == 0 && f.source.kind !in p.precedence && g.precedence != 0
    ensures w in facts && Conforms(w, p, key) && RulingAt(facts, p, key) == Ruling(w.value, w.source)
    ensures w != if g.precedence < 0 then g else f
  {
    if g.precedence < 0 {
      w := LowerStandingNeverRules(facts, p, key, f, g);
    } else {
      w := LowerStandingNeverRules(facts, p, key, g, f);
    }
  }

  // ---- the initial table ----

  /** The library's order of sources. */
  predicate OverriddenBy(low: SourceKind, high: SourceKind) {
    match high
    case Unknown => false
    case InternalDefault => low.Unknown?
    case File => low.Unknown? || low.InternalDefault?
    case Environment => low.Unknown? || low.InternalDefault? || low.File?
    case CLI => !low.CLI? && !low.Runtime?
    case Runtime => !low.Runtime?
  }

  /** With the initial table the command line overrides the environment, that a file, and
      that a default, for facts added without a precedence. */
  lemma InitialTableOrder(facts: seq<Fact>, p: Policies, key: string, f: Fact, g: Fact) returns (w: Fact)
    requires Stamped(facts) && f in facts && Conforms(f, p, key) && g in facts && Conforms(g, p, key)
    requires PolicyFor(p, key).conflict.HighestPrecedenceWins? && f.precedence == 0 && g.precedence == 0
    requires p.precedence == INITIAL_PRECEDENCE && OverriddenBy(g.source.kind, f.source.kind)
    ensures w in facts && Conforms(w, p, key) && w != g && RulingAt(facts, p, key) == Ruling(w.value, w.source)
  {
    w := HigherKindOverrides(facts, p, key, f, g);
  }

  function InitialPlace(kind: SourceKind): int {
    match kind
    case Unknown => 0
    case InternalDefault => 10
    case File => 30
    case Environment => 50
    case CLI => 60
    case Runtime => 70
  }

  lemma InitialPlaceIs(kind: SourceKind)
    ensures kind in INITIAL_PRECEDENCE && INITIAL_PRECEDENCE[kind] == InitialPlace(kind)
  {}

  /** And where a given precedence falls among the kinds. */
  lemma GivenAgainstInitialTable(facts: seq<Fact>, p: Policies, key: string, f: Fact, g: Fact) returns (w: Fact)
    requires Stamped(facts) && f in facts && Conforms(f, p, key) && g in facts && Conforms(g, p, key)
    requires PolicyFor(p, key).conflict.HighestPrecedenceWins? && p.precedence == INITIAL_PRECEDENCE
    requires f.precedence != 0 && g.precedence == 0 && f.precedence != InitialPlace(g.source.kind)
    ensures w in facts && Conforms(w, p, key) && RulingAt(facts, p, key) == Ruling(w.value, w.source)
    ensures w != if f.precedence > InitialPlace(g.source.kind) then g else f
  {
    InitialPlaceIs(g.source.kind);
    if f.precedence > InitialPlace(g.source.kind) {
      w := LowerStandingNeverRules(facts, p, key, f, g);
    } else {
      w := LowerStandingNeverRules(facts, p, key, g, f);
    }
  }

  // ---- what the loaders stamp ----

  /** A fact of a loader: an application fact of the loader's kind with the kind's
      precedence in the table, or none. */
  predicate LoadedAs(f: Fact, kind: SourceKind, table: map<SourceKind, int>) {
    f.role.Application? && f.source.kind == kind &&
    f.precedence == if kind in table then table[kind] else 0
  }

  lemma LineFactsStamped(rd: Reader, st: LoadState, form: LineForm)
    requires forall f :: f in st.facts ==> LoadedAs(f, File, rd.policies.precedence)
    ensures forall f :: f in ReadForm(rd, st.(lineNo := st.lineNo + 1), form).facts ==>
              LoadedAs(f, File, rd.policies.precedence)
  {}

  lemma {:induction false} FileFactsStamped(rd: Reader, st: LoadState, lines: seq<string>)
    requires forall f :: f in st.facts ==> LoadedAs(f, File, rd.policies.precedence)
    ensures forall f :: f in ReadLines(rd, st, lines).facts ==> LoadedAs(f, File, rd.policies.precedence)
    decreases |lines|
  {
    if lines != [] {
      LineFactsStamped(rd, st, Classify(lines[0]));
      FileFactsStamped(rd, ReadLine(rd, st, lines[0]), lines[1..]);
    }
  }

  lemma {:induction false} CliFactsStamped(cli: CliLoader.Cli, r: CliLoader.Report, args: seq<string>, first: bool)
    requires forall f :: f in r.facts ==> LoadedAs(f, CLI, cli.policies.precedence)
    ensures forall f :: f in CliLoader.ReadArgs(cli, r, args, first).facts ==>
              LoadedAs(f, CLI, cli.policies.precedence)
    decreases |args|
  {
    if args != [] {
      CliFactsStamped(cli, CliLoader.ReadToken(cli, r, args, first), args[CliLoader.Used(cli, args)..], false);
    }
  }

  /** A value from the command line overrides one from a file, as long as the table says so. */
  lemma CliOverridesFile(facts: seq<Fact>, rd: Reader, lines: seq<string>, cli: CliLoader.Cli, args: seq<string>,
                         key: string, f: Fact, g: Fact)
    returns (w: Fact)
    requires Stamped(facts) && f in facts && g in facts && rd.policies == cli.policies
    requires exists l :: l in CliLoader.LoadCli(cli, args).facts && Claim(l) == Claim(f)
    requires exists l :: l in ReadLines(rd, START, lines).facts && Claim(l) == Claim(g)
    requires Conforms(f, cli.policies, key) && Conforms(g, cli.policies, key)
    requires PolicyFor(cli.policies, key).conflict.HighestPrecedenceWins?
    requires cli.policies.precedence == INITIAL_PRECEDENCE
    ensures w in facts && Conforms(w, cli.policies, key) && w != g
    ensures RulingAt(facts, cli.policies, key) == Ruling(w.value, w.source)
  {
    CliFactsStamped(cli, CliLoader.Report([], []), args, true);
    FileFactsStamped(rd, START, lines);
    var l :| l in CliLoader.LoadCli(cli, args).facts && Claim(l) == Claim(f);
    var m :| m in ReadLines(rd, START, lines).facts && Claim(m) == Claim(g);
    assert Claim(l).precedence == f.precedence && Claim(m).precedence == g.precedence;
    w := GivenPrecedenceOverrides(facts, cli.policies, key, f, g);
  }
}
