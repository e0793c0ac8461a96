/** Every rejection has a reason: no fact and no line disappears without a trace. */
module Reasons {
  import opened Sources
  import opened Diagnostics
  import opened Facts
  import opened Policy
  import opened Keys
  import opened Resolver
  import opened ResolverLaws
  import opened FileLoader
  import opened Reports

  // ---- facts ----

  /** An error that names the fact's key and source. */
  predicate Names(d: Diagnostic, f: Fact) { d.severity.Error? && d.key == f.key && d.source == f.source }

  ghost predicate HasReason(diags: seq<Diagnostic>, f: Fact) { exists d :: d in diags && Names(d, f) }

  /** An application fact that is not among its key's candidates is named, by key and
      source, in an error. */
  lemma RejectionHasReason(facts: seq<Fact>, p: Policies, f: Fact)
    requires f in facts && f.role.Application?
    requires Effective(f, p) !in Valid(facts, p, f.key)
    ensures HasReason(Resolve(facts, p).diagnostics, f)
  {
    if !ValidDotted(f.key) {
      var d := AboutFact(f, "CONFIG_INVALID_KEY");
      assert Names(d, f);
      ResolutionReports(facts, p, d);
    } else {
      CandidatesExactly(facts, p, f.key, Effective(f, p));
      MeetsMeansNoBreak(PolicyFor(p, f.key), f.value);
      var rule :| Breaks(PolicyFor(p, f.key), f.value, rule);
      var d := AboutFact(f, ResolverCode(rule));
      assert Names(d, f);
      ResolutionReports(facts, p, d);
    }
  }

  /** Each application fact is kept among the candidates of its key's entry or named in an error. */
  lemma FactAccounted(facts: seq<Fact>, p: Policies, f: Fact)
    requires f in facts && f.role.Application?
    ensures var r := Resolve(facts, p);
            (f.key in r.config && Effective(f, p) in r.config[f.key].candidates) || HasReason(r.diagnostics, f)
  {
    ConfigKeys(facts, p);
    if Effective(f, p) !in Valid(facts, p, f.key) { RejectionHasReason(facts, p, f); }
  }

  /** A candidate that competes and does not show the value ruled is named in an error too. */
  lemma LoserHasReason(facts: seq<Fact>, p: Policies, key: string, f: Fact)
    requires f in Valid(facts, p, key) && Contends(f, Valid(facts, p, key), PolicyFor(p, key).conflict)
    requires !SameValue(ResolvedEntry(facts, p, key).value, f.value)
    ensures HasReason(Resolve(facts, p).diagnostics, f)
  {
    var d := AboutFact(f, if PolicyFor(p, key).conflict.RejectConflict? then "CONFIG_CONFLICT"
                          else "CONFIG_AMBIGUOUS_PRECEDENCE");
    assert Names(d, f);
    ResolutionReports(facts, p, d);
  }

  // ---- lines ----

  /** All lines but blank ones, comments and named section headers say something. */
  predicate Speaks(form: LineForm) {
    form.NoEquals? || form.Assignment? || (form.Header? && form.name == "")
  }

  /** Exactly one fact or one error was added, and it carries this source. */
  predicate OneMore(before: LoadState, after: LoadState, source: Source) {
    var n, m := |before.facts|, |before.diags|;
    (after.diags == before.diags && |after.facts| == n + 1 && after.facts[..n] == before.facts &&
     after.facts[n].source == source) ||
    (after.facts == before.facts && |after.diags| == m + 1 && after.diags[..m] == before.diags &&
     after.diags[m].severity.Error? && after.diags[m].source == source)
  }

  lemma AssignAccounted(rd: Reader, st: LoadState, key: string, value: string)
    ensures OneMore(st, Assign(rd, st, key, value), LineSource(rd.path, st.lineNo))
    ensures Assign(rd, st, key, value).lineNo == st.lineNo
  {}

  lemma FormAccounted(rd: Reader, st: LoadState, form: LineForm)
    ensures var after := ReadForm(rd, st, form);
            after.lineNo == st.lineNo &&
            if Speaks(form) then OneMore(st, after, LineSource(rd.path, st.lineNo))
            else after.facts == st.facts && after.diags == st.diags
  {
    if form.Assignment? { AssignAccounted(rd, st, form.key, form.value); }
  }

  /** A speaking line gives one fact or one error with its line number, any other nothing. */
  lemma LineAccounted(rd: Reader, st: LoadState, line: string)
    ensures var after := ReadLine(rd, st, line);
            after.lineNo == st.lineNo + 1 &&
            if Speaks(Classify(line)) then OneMore(st, after, LineSource(rd.path, st.lineNo + 1))
            else after.facts == st.facts && after.diags == st.diags
  {
    FormAccounted(rd, st.(lineNo := st.lineNo + 1), Classify(line));
  }

  function Speaking(lines: seq<string>): nat {
    if lines == [] then 0 else (if Speaks(Classify(lines[0])) then 1 else 0) + Speaking(lines[1..])
  }

  /** As many facts and errors are added as lines speak, and nothing is taken away. */
  lemma {:induction false} LinesConserved(rd: Reader, st: LoadState, lines: seq<string>)
    ensures var after := ReadLines(rd, st, lines);
            st.facts <= after.facts && st.diags <= after.diags &&
            |after.facts| + |after.diags| == |st.facts| + |st.diags| + Speaking(lines)
    decreases |lines|
  {
    if lines != [] {
      LineAccounted(rd, st, lines[0]);
      LinesConserved(rd, ReadLine(rd, st, lines[0]), lines[1..]);
    }
  }

  /** Some fact or error carries this source. */
  ghost predicate Heard(r: LoadState, source: Source) {
    (exists f :: f in r.facts && f.source == source) ||
    (exists d :: d in r.diags && d.severity.Error? && d.source == source)
  }

  lemma HeardLater(before: LoadState, now: LoadState, later: LoadState, source: Source)
    requires OneMore(before, now, source) && now.facts <= later.facts && now.diags <= later.diags
    ensures Heard(later, source)
  {
    if now.diags == before.diags {
      assert later.facts[|before.facts|] in later.facts;
    } else {
      assert later.diags[|before.diags|] in later.diags;
    }
  }

  lemma FirstLineHeard(rd: Reader, st: LoadState, lines: seq<string>)
    requires lines != [] && Speaks(Classify(lines[0]))
    ensures Heard(ReadLines(rd, st, lines), LineSource(rd.path, st.lineNo + 1))
  {
    var next := ReadLine(rd, st, lines[0]);
    LineAccounted(rd, st, lines[0]);
    LinesConserved(rd, next, lines[1..]);
    HeardLater(st, next, ReadLines(rd, next, lines[1..]), LineSource(rd.path, st.lineNo + 1));
  }

  lemma {:induction false} ReadLinesSplit(rd: Reader, st: LoadState, lines: seq<string>, i: nat)
    requires i <= |lines|
    ensures ReadLines(rd, st, lines) == ReadLines(rd, ReadLines(rd, st, lines[..i]), lines[i..])
    ensures ReadLines(rd, st, lines[..i]).lineNo == st.lineNo + i
    decreases i
  {
    if i == 0 {
      assert lines[..0] == [] && lines[0..] == lines;
    } else {
      var next, rest := ReadLine(rd, st, lines[0]), lines[1..];
      LineAccounted(rd, st, lines[0]);
      ReadLinesSplit(rd, next, rest, i - 1);
      assert lines[..i][0] == lines[0] && lines[..i][1..] == rest[..i - 1] && rest[i - 1..] == lines[i..];
    }
  }

  /** Each speaking line of a file is heard: some fact or error carries its number. */
  lemma LineHeard(rd: Reader, st: LoadState, lines: seq<string>, i: nat)
    requires i < |lines| && Speaks(Classify(lines[i]))
    ensures Heard(ReadLines(rd, st, lines), LineSource(rd.path, st.lineNo + i + 1))
  {
    ReadLinesSplit(rd, st, lines, i);
    FirstLineHeard(rd, ReadLines(rd, st, lines[..i]), lines[i..]);
  }
}
