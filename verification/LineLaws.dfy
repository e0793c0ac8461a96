/** What each line of a file does, and about which key and line. */
module LineLaws {
  import opened Wrappers
  import opened Text
  import opened Values
  import opened Sources
  import opened Diagnostics
  import opened Facts
  import opened Keys
  import opened Scanner
  import opened Parsing
  import opened FileLoader
  import opened FileLaws

  /** The source names the file and the line, and no other line of it. */
  lemma LineSourceExactly(path: string, m: nat, n: nat)
    ensures LineSource(path, m) == Source(File, path + ":" + DecimalText(m))
    ensures LineSource(path, m) == LineSource(path, n) ==> m == n
  {
    if LineSource(path, m) == LineSource(path, n) {
      var head := path + ":";
      assert DecimalText(m) == (head + DecimalText(m))[|head|..];
      assert DecimalText(n) == (head + DecimalText(n))[|head|..];
      DecimalTextReads(m);
      DecimalTextReads(n);
    }
  }

  predicate Refused(before: LoadState, after: LoadState, code: string, key: string, path: string) {
    after == before.(lineNo := before.lineNo + 1, diags := before.diags +
      [Diagnostic(Error, code, key, Source(File, path + ":" + DecimalText(before.lineNo + 1)))])
  }

  predicate Adds(before: LoadState, after: LoadState, rd: Reader, key: string, v: Value) {
    after == before.(lineNo := before.lineNo + 1, facts := before.facts +
      [Fact(key, v, Source(File, rd.path + ":" + DecimalText(before.lineNo + 1)),
            if File in rd.policies.precedence then rd.policies.precedence[File] else 0,
            Application, |before.facts|)])
  }

  /** An assignment without a key, or with an ill-formed one, is refused as such; otherwise its
      value text is taken at the type that the key's policy expects, and refused if it is none
      of that type, or inferred when no type is expected. */
  lemma AssignmentMeans(rd: Reader, st: LoadState, line: string, k: string, text: string)
    requires Classify(line) == Assignment(k, text)
    ensures var after := ReadLine(rd, st, line);
            var key := if st.section != "" && '.' !in k then st.section + "." + k else k;
            if k == "" then Refused(st, after, "CONFIG_FILE_BAD_KEY", "", rd.path)
            else if !ValidDotted(key) then Refused(st, after, "CONFIG_FILE_BAD_KEY", key, rd.path)
            else if key in rd.policies.keys && rd.policies.keys[key].expected.Some?
            then match ParseValue(Unquote(text), rd.policies.keys[key].expected.value, rd.stod)
                 case Some(v) => Adds(st, after, rd, key, v)
                 case None => Refused(st, after, "CONFIG_FILE_PARSE_FAILED", key, rd.path)
            else Adds(st, after, rd, key, InferValue(text, rd.stod))
  {}

  /** A line that is no assignment: a header sets the section, an empty one is refused, and
      so is a line without an equals sign. */
  lemma OtherLineMeans(rd: Reader, st: LoadState, line: string)
    ensures var after := ReadLine(rd, st, line);
            match Classify(line)
            case Blank => after == st.(lineNo := st.lineNo + 1)
            case Header(name) =>
              if name == "" then Refused(st.(section := ""), after, "CONFIG_FILE_BAD_SECTION", "", rd.path)
              else after == st.(lineNo := st.lineNo + 1, section := name)
            case NoEquals => Refused(st, after, "CONFIG_FILE_BAD_LINE", "", rd.path)
            case Assignment(_, _) => true
  {}

  /** Which text is which: brackets around a name make a header, and an equals sign the first
      of which ends the key an assignment, unless the line is a header. */
  lemma ClassifyExactly(text: string, left: string, right: string)
    requires Plain(text) && Tight(text) && text != ""
    ensures text == "[" + left + "]" ==> Classify(text) == Header(Trim(left))
    ensures (text[0] != '[' || text[|text| - 1] != ']') && '=' !in text ==> Classify(text) == NoEquals
    ensures (text[0] != '[' || text[|text| - 1] != ']') && text == left + ['='] + right && '=' !in left ==>
              Classify(text) == Assignment(Trim(left), Strip(right))
  {
    ClassifyByText(text);
    PlainNeedsNoQuoting(text);
    if text == "[" + left + "]" { assert text[1..|text| - 1] == left; }
    if '=' !in text { FindNone(text, '='); }
    if text == left + ['='] + right && '=' !in left {
      FindIs(left, '=', right);
      assert text[..|left|] == left && text[|left| + 1..] == right;
    }
  }

  lemma WordReads(key: string, word: string)
    requires PlainKey(key) && Plain(word) && Tight(word)
    ensures Classify(key + " = " + word) == Assignment(key, word) && Unquote(word) == word
  {
    ClassifyEntry(key, word);
    PlainNeedsNoQuoting(word);
    UnquotePlain(word);
  }

  /** An unquoted plain word under a Bool policy loads as what it means, in any letter case. */
  lemma BoolWordReads(rd: Reader, st: LoadState, key: string, word: string)
    requires PlainKey(key) && st.section == "" && ValidDotted(key) && Plain(word) && Tight(word)
    requires key in rd.policies.keys && rd.policies.keys[key].expected == Some(BoolType)
    ensures var after := ReadLine(rd, st, key + " = " + word);
            if MeansTrue(word) then Adds(st, after, rd, key, Bool(true))
            else if MeansFalse(word) then Adds(st, after, rd, key, Bool(false))
            else Refused(st, after, "CONFIG_FILE_PARSE_FAILED", key, rd.path)
  {
    WordReads(key, word);
    AssignmentMeans(rd, st, key + " = " + word, key, word);
    ParseValueExact(word, BoolType, rd.stod);
  }

  lemma OnMeansTrue(word: string)
    requires word == "on" || word == "Yes" || word == "TRUE" || word == "1"
    ensures Plain(word) && Tight(word) && MeansTrue(word)
  {
    TrimTight(word);
  }

  /** "key = on" under a Bool policy is true. */
  lemma OnIsTrue(rd: Reader, st: LoadState, key: string)
    requires PlainKey(key) && st.section == "" && ValidDotted(key)
    requires key in rd.policies.keys && rd.policies.keys[key].expected == Some(BoolType)
    ensures Adds(st, ReadLine(rd, st, key + " = " + "on"), rd, key, Bool(true))
  {
    OnMeansTrue("on");
    BoolWordReads(rd, st, key, "on");
  }

  lemma QuotedReads(key: string, s: string)
    requires PlainKey(key)
    ensures Classify(key + " = " + Quote(s)) == Assignment(key, Quote(s))
  {
    ClassifyEntry(key, Quote(s));
    ScanQuoted(s, "");
    SpacesAreTail("");
    assert "" + Quote(s) + "" == Quote(s) && Quote(s) + "" == Quote(s);
    StripProtected("", Quote(s), "");
  }

  /** A quoted text without a policy is that text, unless it means a Bool or an integer or
      has a point. */
  lemma QuotedTextReads(rd: Reader, st: LoadState, key: string, s: string)
    requires PlainKey(key) && st.section == "" && ValidDotted(key)
    requires key !in rd.policies.keys
    requires !MeansTrue(s) && !MeansFalse(s) && !MeansInt(s) && '.' !in s
    ensures Adds(st, ReadLine(rd, st, key + " = " + Quote(s)), rd, key, Str(s))
  {
    QuotedReads(key, s);
    AssignmentMeans(rd, st, key + " = " + Quote(s), key, Quote(s));
    UnquoteQuote(s);
    InferValueExact(Quote(s), rd.stod);
  }

  lemma NameMeansNothing(s: string)
    requires s == "svc"
    ensures !MeansTrue(s) && !MeansFalse(s) && !MeansInt(s) && '.' !in s
  {
    TrimTight(s);
    assert s[0] == 's' && DigitOf(s[0]) == 16;
  }

  lemma QuotedNameIsItself(rd: Reader, st: LoadState, key: string)
    requires PlainKey(key) && st.section == "" && ValidDotted(key)
    requires key !in rd.policies.keys
    ensures Adds(st, ReadLine(rd, st, key + " = " + Quote("svc")), rd, key, Str("svc"))
  {
    NameMeansNothing("svc");
    QuotedTextReads(rd, st, key, "svc");
  }
}
