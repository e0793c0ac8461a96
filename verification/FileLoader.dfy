/** The sectioned key-value file loader, from the lines of the file on. */
module FileLoader {
  import opened Wrappers
  import opened Text
  import opened Values
  import opened Sources
  import opened Diagnostics
  import opened Facts
  import opened Policy
  import opened Keys
  import opened Scanner
  import opened Parsing

  datatype LineForm =
    | Blank
    | Header(name: string)
    | NoEquals
    | Assignment(key: string, value: string)

  /** What a comment-free line is. */
  function FormOf(text: string): LineForm {
    if text == "" then Blank
    else if text[0] == '[' && text[|text| - 1] == ']' then Header(Trim(text[1..|text| - 1]))
    else
      var eq := Find(text, '=');
      if eq == |text| then NoEquals else Assignment(Trim(text[..eq]), Strip(text[eq + 1..]))
  }

  /** The line as the loader sees it, comment included. */
  function Classify(line: string): LineForm {
    var trimmed := Trim(line);
    if trimmed == "" || StartsWithComment(trimmed) then Blank else FormOf(Strip(trimmed))
  }

  /** Only the stripped line matters. */
  lemma ClassifyByText(line: string)
    ensures Classify(line) == FormOf(Strip(line))
  {
    StripOfTrim(line);
    var t := Trim(line);
    if t == "" {
      assert t[..0] == "";
    } else if StartsWithComment(t) {
      assert t[..Scan(t, false, false)] == "";
    }
  }

  /** Who reads: the file's name, the policies and the double parser. */
  datatype Reader = Reader(path: string, policies: Policies, stod: DoubleParser)

  datatype LoadState = LoadState(section: string, lineNo: nat, facts: seq<Fact>, diags: seq<Diagnostic>)

  const START := LoadState("", 0, [], [])

  function LineSource(path: string, lineNo: nat): Source { Source(File, path + ":" + DecimalText(lineNo)) }

  function FullKey(section: string, key: string): string {
    if section != "" && '.' !in key then section + "." + key else key
  }

  /** The value a value text stands for under the key's policy. */
  function ValueOf(rd: Reader, key: string, text: string): Option<Value> {
    match ExpectedTypeFor(rd.policies, key)
    case Some(ty) => ParseValue(Unquote(text), ty, rd.stod)
    case None => Some(InferValue(text, rd.stod))
  }

  function Complain(rd: Reader, st: LoadState, code: string, key: string): LoadState {
    st.(diags := st.diags + [Diagnostic(Error, code, key, LineSource(rd.path, st.lineNo))])
  }

  function AddFact(rd: Reader, st: LoadState, key: string, v: Value): LoadState {
    st.(facts := st.facts + [Fact(key, v, LineSource(rd.path, st.lineNo),
                                  PrecedenceFor(rd.policies, File), Application, |st.facts|)])
  }

  function Assign(rd: Reader, st: LoadState, keyText: string, valueText: string): LoadState {
    if keyText == "" then Complain(rd, st, "CONFIG_FILE_BAD_KEY", "")
    else
      var key := FullKey(st.section, keyText);
      if !ValidDotted(key) then Complain(rd, st, "CONFIG_FILE_BAD_KEY", key)
      else
        match ValueOf(rd, key, valueText)
        case None => Complain(rd, st, "CONFIG_FILE_PARSE_FAILED", key)
        case Some(v) => AddFact(rd, st, key, v)
  }

  function ReadForm(rd: Reader, st: LoadState, form: LineForm): LoadState {
    match form
    case Blank => st
    case Header(name) =>
      var st' := st.(section := name);
      if name == "" then Complain(rd, st', "CONFIG_FILE_BAD_SECTION", "") else st'
    case NoEquals => Complain(rd, st, "CONFIG_FILE_BAD_LINE", "")
    case Assignment(k, v) => Assign(rd, st, k, v)
  }

  function ReadLine(rd: Reader, st: LoadState, line: string): LoadState {
    ReadForm(rd, st.(lineNo := st.lineNo + 1), Classify(line))
  }

  function ReadLines(rd: Reader, st: LoadState, lines: seq<string>): LoadState
    decreases |lines|
  {
    if lines == [] then st else ReadLines(rd, ReadLine(rd, st, lines[0]), lines[1..])
  }

  method LoadAssignment(rd: Reader, section: string, lineNo: nat, keyText: string, valueText: string,
                        facts: FactSet, log: DiagnosticLog)
    requires Stamped(facts.facts)
    modifies facts, log
    ensures Stamped(facts.facts)
    ensures LoadState(section, lineNo, facts.facts, log.items) ==
            Assign(rd, LoadState(section, lineNo, old(facts.facts), old(log.items)), keyText, valueText)
  {
    if keyText == "" {
      log.AddError("CONFIG_FILE_BAD_KEY", "", LineSource(rd.path, lineNo));
      return;
    }
    var key := FullKey(section, keyText);
    if !ValidDotted(key) {
      log.AddError("CONFIG_FILE_BAD_KEY", key, LineSource(rd.path, lineNo));
      return;
    }
    var parsed := ValueOf(rd, key, valueText);
    if parsed.None? {
      log.AddError("CONFIG_FILE_PARSE_FAILED", key, LineSource(rd.path, lineNo));
      return;
    }
    facts.Add(key, parsed.value, LineSource(rd.path, lineNo), PrecedenceFor(rd.policies, File), Application);
  }

  // One turn of the line loop; returns the section in force afterwards.
  method LoadLine(rd: Reader, section: string, lineNo: nat, line: string, facts: FactSet, log: DiagnosticLog)
    returns (section': string)
    requires Stamped(facts.facts)
    modifies facts, log
    ensures Stamped(facts.facts)
    ensures LoadState(section', lineNo, facts.facts, log.items) ==
            ReadForm(rd, LoadState(section, lineNo, old(facts.facts), old(log.items)), Classify(line))
  {
    section' := section;
    var text := Trim(line);
    if text == "" || StartsWithComment(text) { return; }
    text := StripInlineComment(text);
    if text == "" { return; }
    if text[0] == '[' && text[|text| - 1] == ']' {
      section' := Trim(text[1..|text| - 1]);
      if section' == "" { log.AddError("CONFIG_FILE_BAD_SECTION", "", LineSource(rd.path, lineNo)); }
      return;
    }
    var eq := Find(text, '=');
    if eq == |text| {
      log.AddError("CONFIG_FILE_BAD_LINE", "", LineSource(rd.path, lineNo));
      return;
    }
    var valueText := StripInlineComment(text[eq + 1..]);
    LoadAssignment(rd, section, lineNo, Trim(text[..eq]), valueText, facts, log);
  }

  method LoadKeyValueFile(rd: Reader, lines: seq<string>) returns (facts: FactSet, log: DiagnosticLog)
    ensures fresh(facts) && fresh(log) && Stamped(facts.facts)
    ensures facts.facts == ReadLines(rd, START, lines).facts
    ensures log.items == ReadLines(rd, START, lines).diags
  {
    facts := new FactSet();
    log := new DiagnosticLog();
    var section := "";
    for i := 0 to |lines|
      invariant fresh(facts) && fresh(log) && Stamped(facts.facts)
      invariant ReadLines(rd, START, lines) ==
                ReadLines(rd, LoadState(section, i, facts.facts, log.items), lines[i..])
    {
      assert lines[i..][0] == lines[i] && lines[i..][1..] == lines[i + 1..];
      section := LoadLine(rd, section, i + 1, lines[i], facts, log);
    }
  }
}
