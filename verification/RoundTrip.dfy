/** Exported text read back by the file loader. */
module RoundTrip {
  import opened Wrappers
  import opened Text
  import opened Values
  import opened Sources
  import opened Facts
  import opened Policy
  import opened Keys
  import opened Scanner
  import opened Parsing
  import opened FileLoader
  import opened FileLaws
  import opened Resolver
  import opened Governed
  import opened Store
  import opened Runs
  import opened Exports
  import Sequences
  import ResolverLaws
  import OrderLaws
  import opened Reasons

  function ShownText(s: Shown): string {
    match s
    case Shown(v) => v.ToText()
    case Redacted => "<redacted>"
    case ErasedMark => "<erased>"
  }

  /** write_entry without its newline. */
  function EntryLine(e: ExportEntry): string { e.key + " = " + ShownText(e.shown) }

  function Render(es: seq<ExportEntry>): string {
    if es == [] then "" else EntryLine(es[0]) + "\n" + Render(es[1..])
  }

  /** The text of entries: one line each, with a mark for a redacted key and for an erased one. */
  lemma RenderExactly(e: ExportEntry, rest: seq<ExportEntry>)
    ensures Render([e] + rest) ==
            e.key + " = " + (match e.shown case Shown(v) => v.ToText() case Redacted => "<redacted>"
                             case ErasedMark => "<erased>") + "\n" + Render(rest)
    ensures Render([]) == ""
  {
    assert ([e] + rest)[0] == e && ([e] + rest)[1..] == rest;
  }

  function EntryLines(es: seq<ExportEntry>): seq<string> {
    if es == [] then [] else [EntryLine(es[0])] + EntryLines(es[1..])
  }

  /** A text that one unquoted line carries. */
  predicate FitsLine(s: string) { NeedsNoQuoting(s) && '\n' !in s }

  /** A plain valid key with an unredacted value of the expected type, doubles excluded. */
  predicate Writable(p: Policies, e: ExportEntry) {
    PlainKey(e.key) && '\n' !in e.key && ValidDotted(e.key) &&
    e.shown.Shown? && !e.shown.value.Double? &&
    ExpectedTypeFor(p, e.key) == Some(e.shown.value.Type())
  }

  /** An entry that the text format carries: if its value is a string, it fits. */
  predicate Readable(p: Policies, e: ExportEntry) {
    Writable(p, e) && (e.shown.value.Str? ==> FitsLine(e.shown.value.s))
  }

  lemma ValueTextFits(v: Value)
    requires !v.Double? && (v.Str? ==> FitsLine(v.s))
    ensures FitsLine(v.ToText())
  {
    if v.Int? { IntTextIsNumeral(v.n); }
    if !v.Str? { PlainNeedsNoQuoting(v.ToText()); }
  }

  lemma ValueLine(rd: Reader, st: LoadState, key: string, text: string, v: Value)
    requires PlainKey(key) && ValidDotted(FullKey(st.section, key))
    requires ValueOf(rd, FullKey(st.section, key), Strip(text)) == Some(v)
    ensures ReadLine(rd, st, key + " = " + text) ==
            AddFact(rd, st.(lineNo := st.lineNo + 1), FullKey(st.section, key), v)
  {
    ClassifyEntry(key, text);
    ReadAssignment(rd, st, key + " = " + text, key, Strip(text), v);
  }

  lemma StringLine(rd: Reader, st: LoadState, key: string, text: string)
    requires PlainKey(key) && ValidDotted(FullKey(st.section, key))
    requires ExpectedTypeFor(rd.policies, FullKey(st.section, key)) == Some(StringType)
    ensures ReadLine(rd, st, key + " = " + text) ==
            AddFact(rd, st.(lineNo := st.lineNo + 1), FullKey(st.section, key), Str(Unquote(Strip(text))))
  {
    ValueLine(rd, st, key, text, Str(Unquote(Strip(text))));
  }

  /** A string value without a newline is exported on one line, which loads as a string, and
      as the same string exactly when it needs no quoting. */
  lemma StringLineReads(rd: Reader, st: LoadState, key: string, s: string)
    requires PlainKey(key) && '\n' !in key && ValidDotted(FullKey(st.section, key)) && '\n' !in s
    requires ExpectedTypeFor(rd.policies, FullKey(st.section, key)) == Some(StringType)
    ensures exists t ::
              ReadLine(rd, st, EntryLine(ExportEntry(key, Shown(Str(s))))) ==
                AddFact(rd, st.(lineNo := st.lineNo + 1), FullKey(st.section, key), Str(t)) &&
              (t == s <==> NeedsNoQuoting(s))
  {
    StringLine(rd, st, key, s);
    SurvivesExactly(s);
    assert EntryLine(ExportEntry(key, Shown(Str(s)))) == key + " = " + s;
  }

  lemma ReadableValue(rd: Reader, e: ExportEntry)
    requires Readable(rd.policies, e)
    ensures ValueOf(rd, e.key, Strip(ShownText(e.shown))) == Some(e.shown.value)
  {
    var text := ShownText(e.shown);
    ValueTextFits(e.shown.value);
    SurvivesExactly(text);
    ParsePrinted(e.shown.value, rd.stod);
  }

  lemma ReadableLine(rd: Reader, st: LoadState, e: ExportEntry)
    requires st.section == "" && Readable(rd.policies, e)
    ensures ReadLine(rd, st, EntryLine(e)) == AddFact(rd, st.(lineNo := st.lineNo + 1), e.key, e.shown.value)
  {
    ReadableValue(rd, e);
    ValueLine(rd, st, e.key, ShownText(e.shown), e.shown.value);
  }

  lemma {:induction false} LinesOfText(es: seq<ExportEntry>)
    requires forall e :: e in es ==> '\n' !in EntryLine(e)
    ensures GetLines(Render(es), '\n') == EntryLines(es)
  {
    if es != [] {
      forall e | e in es[1..] ensures '\n' !in EntryLine(e) { assert e in es; }
      LinesOfText(es[1..]);
      assert es[0] in es;
      GetLinesCons(EntryLine(es[0]), '\n', Render(es[1..]));
      assert EntryLine(es[0]) + ['\n'] + Render(es[1..]) == Render(es);
    }
  }

  predicate AllWritable(p: Policies, es: seq<ExportEntry>) { forall e :: e in es ==> Writable(p, e) }

  predicate AllReadable(p: Policies, es: seq<ExportEntry>) { forall e :: e in es ==> Readable(p, e) }

  /** The fact a readable entry is read as, from line `lineNo`. */
  predicate IsFactOf(rd: Reader, f: Fact, e: ExportEntry, lineNo: nat) {
    e.shown == Shown(f.value) &&
    f == Fact(e.key, f.value, LineSource(rd.path, lineNo), PrecedenceFor(rd.policies, File), Application, f.order)
  }

  function ShownValue(e: ExportEntry): Value { if e.shown.Shown? then e.shown.value else Null }

  // One fact after another, each on its own line.
  function AddEntry(rd: Reader, st: LoadState, e: ExportEntry): LoadState {
    AddFact(rd, st.(lineNo := st.lineNo + 1), e.key, ShownValue(e))
  }

  function AddEntries(rd: Reader, st: LoadState, es: seq<ExportEntry>): LoadState
    decreases |es|
  {
    if es == [] then st else AddEntries(rd, AddEntry(rd, st, es[0]), es[1..])
  }

  lemma {:induction false} ReadEntries(rd: Reader, st: LoadState, es: seq<ExportEntry>)
    requires st.section == "" && AllReadable(rd.policies, es)
    ensures ReadLines(rd, st, EntryLines(es)) == AddEntries(rd, st, es)
    decreases |es|
  {
    if es != [] {
      assert es[0] in es;
      ReadableLine(rd, st, es[0]);
      var lines := EntryLines(es);
      assert lines[0] == EntryLine(es[0]) && lines[1..] == EntryLines(es[1..]);
      assert forall e :: e in es[1..] ==> e in es;
      ReadEntries(rd, AddEntry(rd, st, es[0]), es[1..]);
    }
  }

  function FactAt(rd: Reader, e: ExportEntry, lineNo: nat, order: nat): Fact {
    Fact(e.key, ShownValue(e), LineSource(rd.path, lineNo), PrecedenceFor(rd.policies, File), Application, order)
  }

  function FactsOfEntries(rd: Reader, es: seq<ExportEntry>, lineNo: nat, order: nat): seq<Fact> {
    if es == [] then []
    else [FactAt(rd, es[0], lineNo + 1, order)] + FactsOfEntries(rd, es[1..], lineNo + 1, order + 1)
  }

  lemma {:induction false} AddEntriesShape(rd: Reader, st: LoadState, es: seq<ExportEntry>)
    ensures var r := AddEntries(rd, st, es);
            r.diags == st.diags && r.facts == st.facts + FactsOfEntries(rd, es, st.lineNo, |st.facts|)
    decreases |es|
  {
    if es != [] {
      AddEntriesShape(rd, AddEntry(rd, st, es[0]), es[1..]);
      Sequences.Reassociate(st.facts, [FactAt(rd, es[0], st.lineNo + 1, |st.facts|)],
                            FactsOfEntries(rd, es[1..], st.lineNo + 1, |st.facts| + 1));
    }
  }

  lemma {:induction false} FactsOfEntriesAt(rd: Reader, es: seq<ExportEntry>, lineNo: nat, order: nat)
    ensures var fs := FactsOfEntries(rd, es, lineNo, order);
            |fs| == |es| && forall i :: 0 <= i < |es| ==> fs[i] == FactAt(rd, es[i], lineNo + i + 1, order + i)
    decreases |es|
  {
    if es != [] { FactsOfEntriesAt(rd, es[1..], lineNo + 1, order + 1); }
  }

  /** Exactly one fact per entry, in order, with its key, its value and its line. */
  predicate ReadsBack(rd: Reader, es: seq<ExportEntry>, r: LoadState) {
    r.diags == [] && |r.facts| == |es| && Stamped(r.facts) &&
    forall i :: 0 <= i < |es| ==> IsFactOf(rd, r.facts[i], es[i], i + 1)
  }

  lemma ReadableOneLine(p: Policies, e: ExportEntry)
    requires Readable(p, e)
    ensures '\n' !in EntryLine(e)
  {
    ValueTextFits(e.shown.value);
  }

  lemma FactAtIsFactOf(rd: Reader, e: ExportEntry, lineNo: nat, order: nat)
    requires Readable(rd.policies, e)
    ensures IsFactOf(rd, FactAt(rd, e, lineNo, order), e, lineNo) && FactAt(rd, e, lineNo, order).order == order
  {}

  lemma FactsOfReadable(rd: Reader, es: seq<ExportEntry>, fs: seq<Fact>)
    requires AllReadable(rd.policies, es) && fs == FactsOfEntries(rd, es, 0, 0)
    ensures |fs| == |es| && Stamped(fs)
    ensures forall i :: 0 <= i < |es| ==> IsFactOf(rd, fs[i], es[i], i + 1)
  {
    FactsOfEntriesAt(rd, es, 0, 0);
    forall i | 0 <= i < |es| ensures fs[i].order == i && IsFactOf(rd, fs[i], es[i], i + 1) {
      assert es[i] in es;
      FactAtIsFactOf(rd, es[i], i + 1, i);
    }
  }

  lemma EntriesReadBack(rd: Reader, es: seq<ExportEntry>)
    requires AllReadable(rd.policies, es)
    ensures ReadsBack(rd, es, AddEntries(rd, START, es))
  {
    var fs := FactsOfEntries(rd, es, 0, 0);
    AddEntriesShape(rd, START, es);
    assert [] + fs == fs;
    FactsOfReadable(rd, es, fs);
  }

  lemma ReadableReadsBack(rd: Reader, es: seq<ExportEntry>)
    requires AllReadable(rd.policies, es)
    ensures ReadsBack(rd, es, ReadLines(rd, START, GetLines(Render(es), '\n')))
  {
    forall e | e in es ensures '\n' !in EntryLine(e) { ReadableOneLine(rd.policies, e); }
    LinesOfText(es);
    ReadEntries(rd, START, es);
    EntriesReadBack(rd, es);
  }

  /** A text up to its first newline. */
  function FirstLine(s: string): string { s[..Find(s, '\n')] }

  // The first line that a text is cut into.
  lemma CutText(head: string, t: string, rest: string) returns (more: seq<string>)
    requires '\n' !in head
    ensures GetLines(head + t + "\n" + rest, '\n') == [head + FirstLine(t)] + more
    ensures '\n' !in t ==> more == GetLines(rest, '\n')
  {
    var i := Find(t, '\n');
    if i == |t| {
      assert t[..i] == t;
      GetLinesCons(head + t, '\n', rest);
      more := GetLines(rest, '\n');
    } else {
      var a, b := t[..i], t[i + 1..];
      assert t == a + ['\n'] + b;
      assert head + t + "\n" + rest == (head + a) + ['\n'] + (b + "\n" + rest);
      GetLinesCons(head + a, '\n', b + "\n" + rest);
      more := GetLines(b + "\n" + rest, '\n');
    }
  }

  lemma ReadLinesCons(rd: Reader, st: LoadState, line: string, more: seq<string>)
    ensures ReadLines(rd, st, [line] + more) == ReadLines(rd, ReadLine(rd, st, line), more)
  {
    assert ([line] + more)[1..] == more;
  }

  // What the first line adds stays.
  lemma FirstFactStays(rd: Reader, st: LoadState, line: string, more: seq<string>)
    ensures ReadLine(rd, st, line).facts <= ReadLines(rd, st, [line] + more).facts
  {
    ReadLinesCons(rd, st, line, more);
    LinesConserved(rd, ReadLine(rd, st, line), more);
  }

  // A string that comes back from its first line is that line.
  lemma FirstLineComesBack(s: string)
    requires Unquote(Strip(FirstLine(s))) == s
    ensures FitsLine(s)
  {
    UnquoteNeverGrows(FirstLine(s));
    assert FirstLine(s) == s;
    SurvivesExactly(s);
  }

  lemma FirstFits(rd: Reader, st: LoadState, e: ExportEntry, more: seq<string>, r: LoadState)
    requires st.section == "" && Writable(rd.policies, e)
    requires r == ReadLines(rd, st, [e.key + " = " + FirstLine(ShownText(e.shown))] + more)
    requires |r.facts| > |st.facts| && r.facts[|st.facts|].value == e.shown.value
    ensures Readable(rd.policies, e)
  {
    if e.shown.value.Str? {
      var u := FirstLine(e.shown.value.s);
      StringLine(rd, st, e.key, u);
      FirstFactStays(rd, st, e.key + " = " + u, more);
      assert r.facts[|st.facts|].value == Str(Unquote(Strip(u)));
      FirstLineComesBack(e.shown.value.s);
    }
  }

  /** The values of the entries, from this state on. */
  predicate ValuesFollow(st: LoadState, es: seq<ExportEntry>, r: LoadState) {
    |st.facts| + |es| <= |r.facts| &&
    forall i :: 0 <= i < |es| ==> es[i].shown == Shown(r.facts[|st.facts| + i].value)
  }

  lemma CutReadable(e: ExportEntry, rest: seq<ExportEntry>)
    requires '\n' !in EntryLine(e)
    ensures GetLines(Render([e] + rest), '\n') == [EntryLine(e)] + GetLines(Render(rest), '\n')
  {
    assert ([e] + rest)[1..] == rest;
    GetLinesCons(EntryLine(e), '\n', Render(rest));
    assert EntryLine(e) + ['\n'] + Render(rest) == Render([e] + rest);
  }

  lemma ReadNextEntry(rd: Reader, st: LoadState, e: ExportEntry, more: seq<string>)
    requires st.section == "" && Readable(rd.policies, e)
    ensures ReadLines(rd, st, [EntryLine(e)] + more) == ReadLines(rd, AddEntry(rd, st, e), more)
  {
    ReadableLine(rd, st, e);
    ReadLinesCons(rd, st, EntryLine(e), more);
  }

  lemma ValuesFollowNext(rd: Reader, st: LoadState, e: ExportEntry, rest: seq<ExportEntry>, r: LoadState)
    requires ValuesFollow(st, [e] + rest, r)
    ensures ValuesFollow(AddEntry(rd, st, e), rest, r)
  {
    forall i | 0 <= i < |rest| ensures rest[i].shown == Shown(r.facts[|st.facts| + 1 + i].value) {
      assert ([e] + rest)[i + 1] == rest[i];
    }
  }

  lemma FirstEntryFits(rd: Reader, st: LoadState, e: ExportEntry, rest: seq<ExportEntry>, r: LoadState)
    requires st.section == "" && Writable(rd.policies, e)
    requires r == ReadLines(rd, st, GetLines(Render([e] + rest), '\n')) && ValuesFollow(st, [e] + rest, r)
    ensures Readable(rd.policies, e)
  {
    var more := CutText(e.key + " = ", ShownText(e.shown), Render(rest));
    assert ([e] + rest)[0] == e && ([e] + rest)[1..] == rest;
    FirstFits(rd, st, e, more, r);
  }

  lemma AfterFirstEntry(rd: Reader, st: LoadState, e: ExportEntry, rest: seq<ExportEntry>, r: LoadState)
    requires st.section == "" && Readable(rd.policies, e)
    requires r == ReadLines(rd, st, GetLines(Render([e] + rest), '\n')) && ValuesFollow(st, [e] + rest, r)
    ensures r == ReadLines(rd, AddEntry(rd, st, e), GetLines(Render(rest), '\n'))
    ensures ValuesFollow(AddEntry(rd, st, e), rest, r)
  {
    ReadableOneLine(rd.policies, e);
    CutReadable(e, rest);
    ReadNextEntry(rd, st, e, GetLines(Render(rest), '\n'));
    ValuesFollowNext(rd, st, e, rest, r);
  }

  lemma {:induction false} ReadBackIsReadable(rd: Reader, st: LoadState, es: seq<ExportEntry>, r: LoadState)
    requires st.section == "" && AllWritable(rd.policies, es)
    requires r == ReadLines(rd, st, GetLines(Render(es), '\n')) && ValuesFollow(st, es, r)
    ensures AllReadable(rd.policies, es)
    decreases |es|
  {
    if es != [] {
      var e, rest := es[0], es[1..];
      assert es == [e] + rest;
      FirstEntryFits(rd, st, e, rest, r);
      AfterFirstEntry(rd, st, e, rest, r);
      ReadBackIsReadable(rd, AddEntry(rd, st, e), rest, r);
    }
  }

  /** The rendered text of writable entries reads back as one fact for each, in order, and
      nothing to complain about, exactly when every string among them fits one line. */
  lemma TextRoundTrip(rd: Reader, es: seq<ExportEntry>)
    requires AllWritable(rd.policies, es)
    ensures ReadsBack(rd, es, ReadLines(rd, START, GetLines(Render(es), '\n'))) <==> AllReadable(rd.policies, es)
  {
    var r := ReadLines(rd, START, GetLines(Render(es), '\n'));
    if AllReadable(rd.policies, es) { ReadableReadsBack(rd, es); }
    if ReadsBack(rd, es, r) {
      forall i | 0 <= i < |es| ensures es[i].shown == Shown(r.facts[i].value) {
        assert IsFactOf(rd, r.facts[i], es[i], i + 1);
      }
      ReadBackIsReadable(rd, START, es, r);
    }
  }

  /** What a reader makes of the exported text. */
  function Reloaded(rd: Reader, es: seq<ExportEntry>): LoadState {
    ReadLines(rd, START, GetLines(Render(es), '\n'))
  }

  lemma StringReadsBackExactly(rd: Reader, key: string, s: string)
    requires PlainKey(key) && '\n' !in key && ValidDotted(key)
    requires ExpectedTypeFor(rd.policies, key) == Some(StringType)
    ensures var es := [ExportEntry(key, Shown(Str(s)))];
            ReadsBack(rd, es, Reloaded(rd, es)) <==> FitsLine(s)
  {
    var es := [ExportEntry(key, Shown(Str(s)))];
    assert es[0] in es;
    TextRoundTrip(rd, es);
  }

  lemma RenderOne(e: ExportEntry)
    ensures Render([e]) == EntryLine(e) + "\n"
  {
    assert [e][1..] == [];
  }

  /** A string may hold a newline and the line of another entry: the text is then that of
      two entries. */
  lemma NewlineMakesEntries(key: string, s: string, e: ExportEntry)
    ensures Render([ExportEntry(key, Shown(Str(s + "\n" + EntryLine(e))))]) ==
            Render([ExportEntry(key, Shown(Str(s))), e])
  {
    var joined, first := ExportEntry(key, Shown(Str(s + "\n" + EntryLine(e)))), ExportEntry(key, Shown(Str(s)));
    RenderOne(e);
    RenderOne(joined);
    assert [first, e][1..] == [e];
    assert EntryLine(joined) == EntryLine(first) + "\n" + EntryLine(e);
  }

  /** Neither a newline nor an outer space survives the text, although the former needs no
      quoting on a line of its own. */
  lemma NewlineAndSpaceAreLost(rd: Reader, key: string)
    requires PlainKey(key) && '\n' !in key && ValidDotted(key)
    requires ExpectedTypeFor(rd.policies, key) == Some(StringType)
    ensures NeedsNoQuoting("a\nb") && !NeedsNoQuoting(" x")
    ensures var es := [ExportEntry(key, Shown(Str("a\nb")))]; !ReadsBack(rd, es, Reloaded(rd, es))
    ensures var es := [ExportEntry(key, Shown(Str(" x")))]; !ReadsBack(rd, es, Reloaded(rd, es))
  {
    PlainNeedsNoQuoting("a\nb");
    assert "a\nb"[1] == '\n';
    assert IsSpace(" x"[0]);
    StringReadsBackExactly(rd, key, "a\nb");
    StringReadsBackExactly(rd, key, " x");
  }

  // ---- from a run's store to its text and back ----

  /** What a caller can check of a store before trusting its export to be read back: of the
      keys and rules, and of the strings. */
  predicate Carried(g: Governance, key: string) {
    PlainKey(key) && '\n' !in key && ValidDotted(key) && !IsSecret(g.access, key) &&
    ExpectedTypeFor(g.policies, key).Some? && ExpectedTypeFor(g.policies, key) != Some(DoubleType)
  }

  predicate StringFits(g: Governance, o: Overlay, key: string) {
    var v := GetValue(g, o, key);
    v.Some? && v.value.Str? ==> FitsLine(v.value.s)
  }

  predicate Portable(g: Governance, o: Overlay, key: string) { Carried(g, key) && StringFits(g, o, key) }

  lemma CarriedIsWritable(g: Governance, o: Overlay, mode: ExportMode, e: ExportEntry)
    requires Filed(g.base) && o.Disjoint() && !ChangesOnly(mode)
    requires e in ExportIn(g, o, WHOLE_STORE, mode) && Carried(g, e.key)
    requires var v := GetValue(g, o, e.key); v.Some? ==> Meets(PolicyFor(g.policies, e.key), v.value)
    ensures Writable(g.policies, e) && GetValue(g, o, e.key) == Some(e.shown.value)
    ensures Readable(g.policies, e) <==> Portable(g, o, e.key)
  {
    var es := ExportIn(g, o, WHOLE_STORE, mode);
    EffectiveExportExactly(g, o, mode, e.key);
    EntryAtIs(es, e.key);
    var i :| 0 <= i < |es| && es[i] == e;
    var j :| 0 <= j < |es| && es[j] == ExportEntry(e.key, EntryAt(es, e.key).value);
    assert i == j;
  }

  lemma ResolvedFiled(facts: seq<Fact>, p: Policies)
    ensures Filed(Resolve(facts, p).config)
  {
    ResolverLaws.ConfigKeys(facts, p);
    forall k | k in Resolve(facts, p).config ensures Resolve(facts, p).config[k].key == k {
      ChosenKey(facts, p, k);
    }
  }

  /** In every reachable state of a store built from a resolution whose exported keys can be
      carried, the text of the effective export reads back under the same policies as exactly
      one fact per exported entry, in order, and without a diagnostic, exactly when every
      exported string fits its line. */
  lemma ExportRoundTrip(facts: seq<Fact>, p: Policies, access: AccessRules, steps: seq<Step>,
                        mode: ExportMode, path: string, stod: DoubleParser)
    requires !ChangesOnly(mode)
    requires var g := GovernanceOf(Resolve(facts, p), p, access);
             forall e :: e in ExportIn(g, Run(g, steps).changes, WHOLE_STORE, mode) ==> Carried(g, e.key)
    ensures var g := GovernanceOf(Resolve(facts, p), p, access);
            var o := Run(g, steps).changes;
            var es := ExportIn(g, o, WHOLE_STORE, mode);
            ReadsBack(Reader(path, p, stod), es,
                      Reloaded(Reader(path, p, stod), es)) <==>
            forall e :: e in es ==> StringFits(g, o, e.key)
  {
    var g := GovernanceOf(Resolve(facts, p), p, access);
    var o := Run(g, steps).changes;
    var es := ExportIn(g, o, WHOLE_STORE, mode);
    RunInvariant(g, steps);
    ResolvedFiled(facts, p);
    forall e | e in es ensures Writable(p, e) && (Readable(p, e) <==> StringFits(g, o, e.key)) {
      EveryValueMeetsPolicy(facts, p, access, steps, e.key);
      CarriedIsWritable(g, o, mode, e);
    }
    TextRoundTrip(Reader(path, p, stod), es);
  }

  // ---- and resolved again ----

  lemma OneFactPerKey(rd: Reader, es: seq<ExportEntry>, r: LoadState, f: Fact) returns (i: nat)
    requires ReadsBack(rd, es, r) && DistinctEntries(es) && f in r.facts
    ensures i < |es| && r.facts[i] == f && es[i] == ExportEntry(f.key, Shown(f.value))
    ensures forall g :: g in r.facts && g.key == f.key ==> g == f
  {
    i :| 0 <= i < |r.facts| && r.facts[i] == f;
    assert IsFactOf(rd, r.facts[i], es[i], i + 1);
    forall g | g in r.facts && g.key == f.key ensures g == f {
      var j :| 0 <= j < |r.facts| && r.facts[j] == g;
      assert IsFactOf(rd, r.facts[j], es[j], j + 1);
      assert es[i].key == es[j].key;
    }
  }

  lemma ReloadedValue(rd: Reader, es: seq<ExportEntry>, r: LoadState, key: string)
    requires ReadsBack(rd, es, r) && DistinctEntries(es)
    requires Valid(r.facts, rd.policies, key) != []
    ensures EntryAt(es, key) == Some(Shown(ResolvedEntry(r.facts, rd.policies, key).value))
  {
    var p := rd.policies;
    var conflict := PolicyFor(p, key).conflict;
    ChooseIn(Valid(r.facts, p, key), conflict);
    var f := OrderLaws.FromFact(r.facts, p, key, Choose(Valid(r.facts, p, key), conflict));
    var i := OneFactPerKey(rd, es, r, f);
    EntryAtIs(es, key);
    var j :| 0 <= j < |es| && es[j] == ExportEntry(key, EntryAt(es, key).value);
    assert i == j;
  }

  lemma ReloadedKey(rd: Reader, es: seq<ExportEntry>, r: LoadState, e: ExportEntry)
    requires ReadsBack(rd, es, r) && e in es && Readable(rd.policies, e)
    requires Meets(PolicyFor(rd.policies, e.key), e.shown.value)
    ensures Valid(r.facts, rd.policies, e.key) != []
  {
    var i :| 0 <= i < |es| && es[i] == e;
    assert IsFactOf(rd, r.facts[i], es[i], i + 1);
    OrderLaws.HasFact(r.facts, rd.policies, e.key, r.facts[i]);
  }

  lemma ReloadedOk(rd: Reader, es: seq<ExportEntry>, r: LoadState)
    requires ReadsBack(rd, es, r) && DistinctEntries(es) && AllReadable(rd.policies, es)
    requires forall e :: e in es ==> Meets(PolicyFor(rd.policies, e.key), e.shown.value)
    ensures Resolve(r.facts, rd.policies).Ok() <==>
            forall k :: k in rd.policies.keys && rd.policies.keys[k].missing.Required? ==> EntryAt(es, k).Some?
  {
    var p := rd.policies;
    ResolverLaws.OkExactly(r.facts, p);
    forall f | f in r.facts
      ensures f.role.Application? && ValidDotted(f.key) && Meets(PolicyFor(p, f.key), f.value)
      ensures forall g :: g in r.facts && g.key == f.key ==> g == f
      ensures EntryAt(es, f.key).Some?
    {
      var i := OneFactPerKey(rd, es, r, f);
      assert es[i] in es && IsFactOf(rd, f, es[i], i + 1);
      EntryAtIs(es, f.key);
    }
    forall k | EntryAt(es, k).Some? ensures exists f :: f in r.facts && ResolverLaws.At(f, k) {
      EntryAtIs(es, k);
      var i :| 0 <= i < |es| && es[i].key == k;
      assert IsFactOf(rd, r.facts[i], es[i], i + 1);
      assert r.facts[i] in r.facts;
    }
  }

  /** The circle closes: resolving what was read back gives exactly the exported keys and
      values, and it is ok exactly when every required key was exported. */
  lemma ReloadedConfigIsExport(rd: Reader, es: seq<ExportEntry>, r: LoadState)
    requires ReadsBack(rd, es, r) && DistinctEntries(es) && AllReadable(rd.policies, es)
    requires forall e :: e in es ==> Meets(PolicyFor(rd.policies, e.key), e.shown.value)
    ensures var config := Resolve(r.facts, rd.policies).config;
            forall k :: EntryAt(es, k) == if k in config then Some(Shown(config[k].value)) else None
    ensures Resolve(r.facts, rd.policies).Ok() <==>
            forall k :: k in rd.policies.keys && rd.policies.keys[k].missing.Required? ==> EntryAt(es, k).Some?
  {
    var p := rd.policies;
    ResolverLaws.ConfigKeys(r.facts, p);
    forall k ensures Valid(r.facts, p, k) != [] <==> EntryAt(es, k).Some? {
      EntryAtIs(es, k);
      if EntryAt(es, k).Some? { ReloadedKey(rd, es, r, ExportEntry(k, EntryAt(es, k).value)); }
      if Valid(r.facts, p, k) != [] { ReloadedValue(rd, es, r, k); }
    }
    forall k | Valid(r.facts, p, k) != []
      ensures EntryAt(es, k) == Some(Shown(ResolvedEntry(r.facts, p, k).value))
    {
      ReloadedValue(rd, es, r, k);
    }
    ReloadedOk(rd, es, r);
  }

  lemma ExportedMeetPolicy(facts: seq<Fact>, p: Policies, access: AccessRules, steps: seq<Step>, mode: ExportMode)
    requires !ChangesOnly(mode)
    requires var g := GovernanceOf(Resolve(facts, p), p, access);
             forall e :: e in ExportIn(g, Run(g, steps).changes, WHOLE_STORE, mode) ==>
               Portable(g, Run(g, steps).changes, e.key)
    ensures var g := GovernanceOf(Resolve(facts, p), p, access);
            var es := ExportIn(g, Run(g, steps).changes, WHOLE_STORE, mode);
            AllReadable(p, es) && DistinctEntries(es) &&
            forall e :: e in es ==> e.shown.Shown? && Meets(PolicyFor(p, e.key), e.shown.value)
  {
    var g := GovernanceOf(Resolve(facts, p), p, access);
    var o := Run(g, steps).changes;
    var es := ExportIn(g, o, WHOLE_STORE, mode);
    RunInvariant(g, steps);
    ResolvedFiled(facts, p);
    forall e | e in es ensures Readable(p, e) && Meets(PolicyFor(p, e.key), e.shown.value) {
      EveryValueMeetsPolicy(facts, p, access, steps, e.key);
      CarriedIsWritable(g, o, mode, e);
    }
    EffectiveExportExactly(g, o, mode, "");
  }

  /** A store built from a resolution, changed by any run, exported as text, read back and
      resolved again reads at every exportable key what the running store reads there. */
  lemma ReloadReadsTheSame(facts: seq<Fact>, p: Policies, access: AccessRules, steps: seq<Step>,
                           mode: ExportMode, path: string, stod: DoubleParser, key: string)
    requires !ChangesOnly(mode)
    requires var g := GovernanceOf(Resolve(facts, p), p, access);
             forall e :: e in ExportIn(g, Run(g, steps).changes, WHOLE_STORE, mode) ==>
               Portable(g, Run(g, steps).changes, e.key)
    ensures var g := GovernanceOf(Resolve(facts, p), p, access);
            var o := Run(g, steps).changes;
            var text := Render(ExportIn(g, o, WHOLE_STORE, mode));
            var reloaded := Resolve(ReadLines(Reader(path, p, stod), START, GetLines(text, '\n')).facts, p);
            GetEntryValue(reloaded.config, key) ==
              if IsExportable(access, key) then GetValue(g, o, key) else None
  {
    var g := GovernanceOf(Resolve(facts, p), p, access);
    var o := Run(g, steps).changes;
    var es := ExportIn(g, o, WHOLE_STORE, mode);
    var rd := Reader(path, p, stod);
    ExportRoundTrip(facts, p, access, steps, mode, path, stod);
    RunInvariant(g, steps);
    ResolvedFiled(facts, p);
    EffectiveExportExactly(g, o, mode, key);
    EntryAtIs(es, key);
    ExportedMeetPolicy(facts, p, access, steps, mode);
    ReloadedConfigIsExport(rd, es, ReadLines(rd, START, GetLines(Render(es), '\n')));
  }
}
