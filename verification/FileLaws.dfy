/** What the file loader promises: exact quoting, and sections as mere shorthand. */
module FileLaws {
  import opened Wrappers
  import opened Sequences
  import opened Text
  import opened Values
  import opened Policy
  import opened Keys
  import opened Scanner
  import opened FileLoader

  // ---- lines that start with a plain text ----

  /** A key as it can be written: no sign that ends it early or hides it. */
  predicate PlainKey(key: string) {
    key != "" && Plain(key) && Tight(key) && '=' !in key && key[0] != '['
  }

  lemma PlainConcat(a: string, b: string)
    requires Plain(a) && Plain(b)
    ensures Plain(a + b)
  {}

  lemma SpacesArePlain(a: string)
    requires AllSpace(a)
    ensures Plain(a) && '=' !in a
  {}

  // A line is stripped to the plain text it starts with and what is left of the rest.
  lemma StripAfterPlain(head: string, rest: string)
    requires Plain(head) && head != "" && !IsSpace(head[0])
    ensures Strip(head + rest) == TrimRight(head + rest[..Scan(rest, false, false)])
  {
    ScanPlain(head, rest);
    var n := Scan(rest, false, false);
    assert (head + rest)[..|head| + n] == head + rest[..n];
  }

  lemma FormOfSplit(text: string, left: string, right: string)
    requires text == left + ['='] + right && '=' !in left && text[0] != '['
    ensures FormOf(text) == Assignment(Trim(left), Strip(right))
  {
    FindIs(left, '=', right);
    assert text[..|left|] == left && text[|left| + 1..] == right;
  }

  lemma FormOfAssignment(key: string, sp: string, value: string)
    requires PlainKey(key) && AllSpace(sp)
    ensures FormOf(key + sp + "=" + value) == Assignment(key, Strip(value))
  {
    SpacesArePlain(sp);
    assert "" + key + sp == key + sp;
    TrimUnique("", key, sp);
    FormOfSplit(key + sp + "=" + value, key + sp, value);
  }

  lemma TrimRightBehind(head: string, a: string, t: string, b: string)
    requires Tight(head) && head != "" && AllSpace(a) && AllSpace(b) && Tight(t)
    ensures TrimRight(head + (a + t + b)) == head + if t == "" then "" else a + t
  {
    if t == "" {
      assert head + (a + t + b) == head + (a + b);
      TrimRightSkips(head, a + b);
    } else {
      assert head + (a + t + b) == (head + (a + t)) + b;
      TrimRightSkips(head + (a + t), b);
    }
  }

  // Stripping keeps the plain head and drops only what stripping the rest drops, except
  // for the spaces between the two.
  lemma StripWritten(head: string, rest: string) returns (a: string)
    requires Plain(head) && head != "" && Tight(head)
    ensures AllSpace(a) && Tight(Strip(rest))
    ensures Strip(head + rest) == head + if Strip(rest) == "" then "" else a + Strip(rest)
  {
    StripAfterPlain(head, rest);
    var b;
    a, b := TrimSplit(rest[..Scan(rest, false, false)]);
    TrimRightBehind(head, a, Strip(rest), b);
  }

  /** Any text written after "key = " loads as its own stripped form. */
  lemma ClassifyWritten(key: string, sp: string, rest: string)
    requires PlainKey(key) && AllSpace(sp)
    ensures Classify(key + sp + "=" + rest) == Assignment(key, Strip(rest))
  {
    var head, t := key + sp + "=", Strip(rest);
    SpacesArePlain(sp);
    PlainConcat(key, sp);
    PlainConcat(key + sp, "=");
    ClassifyByText(head + rest);
    var a := StripWritten(head, rest);
    var value := if t == "" then "" else a + t;
    FormOfAssignment(key, sp, value);
    StripIdempotent(rest);
    if t != "" {
      StripAroundSpaces(a, t, "");
      assert t + "" == t;
    }
  }

  lemma StripLeadingSpace(s: string)
    ensures Strip(" " + s) == Strip(s)
  {
    var a, b := TrimSplit(s);
    assert " " + s == (" " + a) + (Trim(s) + b);
    StripAroundSpaces(" " + a, Trim(s), b);
    StripOfTrim(s);
  }

  lemma ClassifyEntry(key: string, text: string)
    requires PlainKey(key)
    ensures Classify(key + " = " + text) == Assignment(key, Strip(text))
  {
    assert key + " = " + text == key + " " + "=" + (" " + text);
    ClassifyWritten(key, " ", " " + text);
    StripLeadingSpace(text);
  }

  // An assignment whose value text stands for a value adds that as a fact.
  lemma ReadAssignment(rd: Reader, st: LoadState, line: string, key: string, text: string, v: Value)
    requires Classify(line) == Assignment(key, text) && key != ""
    requires ValidDotted(FullKey(st.section, key)) && ValueOf(rd, FullKey(st.section, key), text) == Some(v)
    ensures ReadLine(rd, st, line) ==
            AddFact(rd, st.(lineNo := st.lineNo + 1), FullKey(st.section, key), v)
  {}

  // ---- quoting is exact ----

  /** Nothing, or spaces, or spaces and a comment. */
  predicate IsTail(tail: string) { Scan(tail, false, false) <= |tail| && AllSpace(tail[..Scan(tail, false, false)]) }

  // A text that the scanner passes over is what stripping leaves of it and its tail.
  lemma StripProtected(sp: string, q: string, tail: string)
    requires AllSpace(sp) && IsTail(tail) && Tight(q)
    requires Scan(q + tail, false, false) == |q| + Scan(tail, false, false)
    ensures Strip(sp + q + tail) == q
  {
    SpacesArePlain(sp);
    var n := Scan(tail, false, false);
    Reassociate(sp, q, tail);
    ScanPlain(sp, q + tail);
    PrefixOfConcat(sp + q, tail, "", n);
    assert tail + "" == tail;
    TrimUnique(sp, q, tail[..n]);
  }

  // A line whose value text unquotes to s loads as s under a String policy.
  lemma ProtectedLine(rd: Reader, st: LoadState, key: string, sp: string, sp2: string, q: string, s: string,
                      tail: string)
    requires PlainKey(key) && AllSpace(sp) && AllSpace(sp2) && IsTail(tail) && Tight(q)
    requires Scan(q + tail, false, false) == |q| + Scan(tail, false, false) && Unquote(q) == s
    requires ValidDotted(FullKey(st.section, key))
    requires ExpectedTypeFor(rd.policies, FullKey(st.section, key)) == Some(StringType)
    ensures ReadLine(rd, st, key + sp + "=" + (sp2 + q + tail)) ==
            AddFact(rd, st.(lineNo := st.lineNo + 1), FullKey(st.section, key), Str(s))
  {
    ClassifyWritten(key, sp, sp2 + q + tail);
    StripProtected(sp2, q, tail);
    ReadAssignment(rd, st, key + sp + "=" + (sp2 + q + tail), key, q, Str(s));
  }

  /** Every string survives being quoted: a line of a plain key, an equals sign, the escaped
      string in double quotes and any trailing comment loads as exactly that string. */
  lemma QuotingIsExact(rd: Reader, st: LoadState, key: string, sp: string, sp2: string, s: string, tail: string)
    requires PlainKey(key) && AllSpace(sp) && AllSpace(sp2) && IsTail(tail)
    requires ValidDotted(FullKey(st.section, key))
    requires ExpectedTypeFor(rd.policies, FullKey(st.section, key)) == Some(StringType)
    ensures ReadLine(rd, st, key + sp + "=" + (sp2 + Quote(s) + tail)) ==
            AddFact(rd, st.(lineNo := st.lineNo + 1), FullKey(st.section, key), Str(s))
  {
    ScanQuoted(s, tail);
    UnquoteQuote(s);
    ProtectedLine(rd, st, key, sp, sp2, Quote(s), s, tail);
  }

  /** Single quotes take every text without a single quote or a backslash literally. */
  lemma SingleQuotesAreLiteral(rd: Reader, st: LoadState, key: string, sp: string, sp2: string, s: string,
                               tail: string)
    requires PlainKey(key) && AllSpace(sp) && AllSpace(sp2) && IsTail(tail) && Literal(s)
    requires ValidDotted(FullKey(st.section, key))
    requires ExpectedTypeFor(rd.policies, FullKey(st.section, key)) == Some(StringType)
    ensures ReadLine(rd, st, key + sp + "=" + (sp2 + SingleQuote(s) + tail)) ==
            AddFact(rd, st.(lineNo := st.lineNo + 1), FullKey(st.section, key), Str(s))
  {
    ScanSingleQuoted(s, tail);
    UnquoteSingle(s);
    ProtectedLine(rd, st, key, sp, sp2, SingleQuote(s), s, tail);
  }

  lemma SpacesAreTail(sp: string)
    requires AllSpace(sp)
    ensures IsTail(sp)
  {
    SpacesArePlain(sp);
    ScanPlain(sp, "");
    assert sp + "" == sp && sp[..|sp|] == sp;
  }

  /** The trailing text really may be any comment, after '#' or ';', whatever it holds. */
  lemma CommentIsTail(sp: string, sign: char, comment: string)
    requires AllSpace(sp) && (sign == '#' || sign == ';')
    ensures IsTail(sp + [sign] + comment)
  {
    SpacesArePlain(sp);
    ScanPlain(sp, [sign] + comment);
    assert sp + ([sign] + comment) == sp + [sign] + comment;
    assert (sp + [sign] + comment)[..|sp|] == sp;
  }

  /** A line of spaces and a comment, or of spaces alone, says nothing. */
  lemma CommentLineIsBlank(line: string)
    requires IsTail(line)
    ensures Classify(line) == Blank
  {
    var sp := line[..Scan(line, false, false)];
    assert sp == sp + "" + "";
    TrimUnique(sp, "", "");
    ClassifyByText(line);
  }

  // ---- sections are sugar ----

  /** The line with its section written out. */
  function Desugared(section: string, line: string): string {
    match Classify(line)
    case Header(_) => ""
    case Assignment(k, _) =>
      if section != "" && k != "" && '.' !in k then section + "." + Trim(line) else line
    case _ => line
  }

  function DesugarLines(section: string, lines: seq<string>): seq<string>
    decreases |lines|
  {
    if lines == [] then []
    else
      [Desugared(section, lines[0])] +
      DesugarLines(match Classify(lines[0]) case Header(name) => name case _ => section, lines[1..])
  }

  predicate PlainSections(lines: seq<string>) {
    forall i :: 0 <= i < |lines| && Classify(lines[i]).Header? ==> PlainKey(Classify(lines[i]).name)
  }

  lemma TrimPrefixed(head: string, s: string)
    requires Tight(head) && head != "" && Trim(s) != "" && !IsSpace(s[0])
    ensures Trim(head + s) == head + Trim(s)
  {
    var b := TrimTail(s);
    var c, d := TrimSplit(s);
    assert head + s == "" + (head + Trim(s)) + b;
    TrimUnique("", head + Trim(s), b);
  }

  lemma AssignmentParts(text: string) returns (left: string, right: string)
    requires Tight(text) && FormOf(text).Assignment? && FormOf(text).key != ""
    ensures text == left + ['='] + right && '=' !in left && left != "" && !IsSpace(left[0])
    ensures FormOf(text) == Assignment(Trim(left), Strip(right))
  {
    var eq := Find(text, '=');
    left, right := text[..eq], text[eq + 1..];
    assert Trim("") == "";
  }

  lemma PrefixedParts(head: string, left: string, right: string)
    requires Tight(head) && head != "" && head[0] != '[' && '=' !in head
    requires '=' !in left && left != "" && !IsSpace(left[0]) && Trim(left) != ""
    ensures FormOf(head + (left + ['='] + right)) == Assignment(head + Trim(left), Strip(right))
  {
    assert head + (left + ['='] + right) == (head + left) + ['='] + right;
    FormOfSplit(head + (left + ['='] + right), head + left, right);
    TrimPrefixed(head, left);
  }

  // Writing a plain section in front of an assignment only extends its key.
  lemma PrefixedForm(section: string, text: string)
    requires PlainKey(section) && Tight(text)
    requires FormOf(text).Assignment? && FormOf(text).key != ""
    ensures FormOf(section + "." + text) == Assignment(section + "." + FormOf(text).key, FormOf(text).value)
  {
    var left, right := AssignmentParts(text);
    PrefixedParts(section + ".", left, right);
  }

  lemma StripBehindHead(head: string, t: string)
    requires Plain(head) && head != "" && Tight(head)
    requires Tight(t) && Strip(t) != ""
    ensures Strip(head + t) == head + Strip(t)
  {
    var n := Scan(t, false, false);
    var kept := t[..n];
    ScanPlain(head, t);
    assert (head + t)[..|head| + n] == head + kept;
    assert Trim("") == "";
    assert kept[0] == t[0];
    TrimPrefixed(head, kept);
  }

  lemma StripPrefixed(section: string, line: string)
    requires PlainKey(section) && Strip(line) != ""
    ensures Strip(section + "." + Trim(line)) == section + "." + Strip(line)
  {
    var a, b := TrimSplit(line);
    PlainConcat(section, ".");
    StripOfTrim(line);
    StripBehindHead(section + ".", Trim(line));
  }

  function WithSection(section: string, form: LineForm): LineForm {
    match form
    case Header(_) => Blank
    case Assignment(k, v) => Assignment(if k == "" then k else FullKey(section, k), v)
    case _ => form
  }

  lemma DesugaredForm(section: string, line: string)
    requires section == "" || PlainKey(section)
    ensures Classify(Desugared(section, line)) == WithSection(section, Classify(line))
  {
    match Classify(line)
    case Header(_) =>
    case Assignment(k, v) =>
      if section != "" && k != "" && '.' !in k {
        ClassifyByText(line);
        ClassifyByText(section + "." + Trim(line));
        StripPrefixed(section, line);
        var a, b := StripSplit(line);
        PrefixedForm(section, Strip(line));
      }
    case _ =>
  }

  lemma ReadWithSection(rd: Reader, st: LoadState, form: LineForm)
    requires form.Header? ==> form.name != ""
    ensures ReadForm(rd, st.(section := ""), WithSection(st.section, form)) ==
            ReadForm(rd, st, form).(section := "")
  {}

  lemma ReadBothForms(rd: Reader, st: LoadState, form: LineForm, line: string, plain: string)
    requires Classify(line) == form && Classify(plain) == WithSection(st.section, form)
    requires form.Header? ==> form.name != ""
    ensures ReadLine(rd, st.(section := ""), plain) == ReadLine(rd, st, line).(section := "")
  {
    ReadWithSection(rd, st.(lineNo := st.lineNo + 1), form);
  }

  lemma DesugaredLine(rd: Reader, st: LoadState, line: string)
    requires st.section == "" || PlainKey(st.section)
    requires Classify(line).Header? ==> PlainKey(Classify(line).name)
    ensures ReadLine(rd, st.(section := ""), Desugared(st.section, line)) ==
            ReadLine(rd, st, line).(section := "")
  {
    DesugaredForm(st.section, line);
    ReadBothForms(rd, st, Classify(line), line, Desugared(st.section, line));
  }

  lemma SectionAfter(rd: Reader, st: LoadState, line: string)
    ensures ReadLine(rd, st, line).section ==
            match Classify(line) case Header(name) => name case _ => st.section
  {}

  /** Sections are shorthand: blanking each header and writing each dotless key as
      section.key gives the same facts and diagnostics, line numbers included. */
  lemma {:induction false} SectionsAreSugar(rd: Reader, st: LoadState, lines: seq<string>)
    requires st.section == "" || PlainKey(st.section)
    requires PlainSections(lines)
    ensures var plain := ReadLines(rd, st.(section := ""), DesugarLines(st.section, lines));
            plain.facts == ReadLines(rd, st, lines).facts && plain.diags == ReadLines(rd, st, lines).diags
    ensures |DesugarLines(st.section, lines)| == |lines|
    decreases |lines|
  {
    if lines != [] {
      var next, rest := ReadLine(rd, st, lines[0]), lines[1..];
      DesugaredLine(rd, st, lines[0]);
      SectionAfter(rd, st, lines[0]);
      assert DesugarLines(st.section, lines)[1..] == DesugarLines(next.section, rest);
      forall i | 0 <= i < |rest| && Classify(rest[i]).Header? ensures PlainKey(Classify(rest[i]).name) {
        assert rest[i] == lines[i + 1];
      }
      SectionsAreSugar(rd, next, rest);
    }
  }

  // ---- which keys get the section ----

  /** Is this state the other one with one more fact, filed under this key? */
  predicate Files(before: LoadState, after: LoadState, key: string) {
    |after.facts| == |before.facts| + 1 && after.facts[|before.facts|].key == key &&
    after.facts[..|before.facts|] == before.facts && after.diags == before.diags
  }

  /** Under a section a line that is read at all files its fact at section.key exactly when
      its key has no dot; a dotted key is filed as it stands. */
  lemma SectionPrefixesExactly(rd: Reader, st: LoadState, key: string, sp: string, rest: string)
    requires PlainKey(key) && AllSpace(sp) && st.section != ""
    requires var full := FullKey(st.section, key);
             ValidDotted(full) && ValueOf(rd, full, Strip(rest)).Some?
    ensures var after := ReadLine(rd, st, key + sp + "=" + rest);
            (Files(st, after, st.section + "." + key) <==> '.' !in key) &&
            (Files(st, after, key) <==> '.' in key)
  {
    ClassifyWritten(key, sp, rest);
    assert |st.section + "." + key| > |key|;
  }

  lemma FormOfHeader(name: string)
    requires PlainKey(name)
    ensures FormOf("[" + name + "]") == Header(name)
  {}

  lemma ClassifyHeader(name: string)
    requires PlainKey(name)
    ensures Classify("[" + name + "]") == Header(name)
  {
    PlainConcat("[", name);
    PlainConcat("[" + name, "]");
    PlainNeedsNoQuoting("[" + name + "]");
    ClassifyByText("[" + name + "]");
    FormOfHeader(name);
  }

  lemma ReadTwoLines(rd: Reader, st: LoadState, first: string, second: string)
    ensures ReadLines(rd, st, [first, second]) == ReadLine(rd, ReadLine(rd, st, first), second)
  {
    assert [first, second][1..] == [second];
    assert [second][1..] == [];
    assert ReadLines(rd, ReadLine(rd, st, first), [second]) == ReadLine(rd, ReadLine(rd, st, first), second);
  }

  /** A dotted key right below a section header keeps its own name. */
  lemma DottedKeyKeepsItsName(rd: Reader, section: string, key: string, sp: string, rest: string)
    requires PlainKey(section) && PlainKey(key) && AllSpace(sp)
    requires '.' in key && ValidDotted(key) && ValueOf(rd, key, Strip(rest)).Some?
    ensures Files(START, ReadLines(rd, START, ["[" + section + "]", key + sp + "=" + rest]), key)
  {
    var after := ReadLine(rd, START, "[" + section + "]");
    ClassifyHeader(section);
    ReadTwoLines(rd, START, "[" + section + "]", key + sp + "=" + rest);
    SectionPrefixesExactly(rd, after, key, sp, rest);
  }

  lemma StripLeading(sp: string, s: string)
    requires AllSpace(sp) && Plain(s) && Tight(s)
    ensures Strip(sp + s) == s
  {
    PlainNeedsNoQuoting(s);
    assert s + "" == s && sp + s + "" == sp + s;
    StripProtected(sp, s, "");
  }

  lemma DocumentedNames(section: string, key: string, sp: string, value: string)
    requires section == "server" && key == "feature.enabled" && sp == " " && value == "true"
    ensures PlainKey(section) && PlainKey(key) && ValidDotted(key) && '.' in key
    ensures AllSpace(sp) && Plain(value) && Tight(value)
  {}

  lemma DocumentedLines(section: string, key: string, sp: string, value: string)
    requires section == "server" && key == "feature.enabled" && sp == " " && value == "true"
    ensures ["[server]", "feature.enabled = true"] == ["[" + section + "]", key + sp + "=" + (sp + value)]
  {
    assert "[server]" == "[" + section + "]";
    assert "feature.enabled = true" == key + sp + "=" + (sp + value);
  }

  lemma DocumentedLinesRead(rd: Reader, section: string, key: string, sp: string, value: string)
    requires section == "server" && key == "feature.enabled" && sp == " " && value == "true"
    requires ValueOf(rd, key, value).Some?
    ensures Files(START, ReadLines(rd, START, ["[server]", "feature.enabled = true"]), key)
  {
    DocumentedNames(section, key, sp, value);
    DocumentedLines(section, key, sp, value);
    StripLeading(sp, value);
    DottedKeyKeepsItsName(rd, section, key, sp, sp + value);
  }

  /** The documented input, for which the documentation promises "server.feature.enabled". */
  lemma DocumentedDottedKey(rd: Reader)
    requires ValueOf(rd, "feature.enabled", "true").Some?
    ensures Files(START, ReadLines(rd, START, ["[server]", "feature.enabled = true"]), "feature.enabled")
  {
    DocumentedLinesRead(rd, "server", "feature.enabled", " ", "true");
  }
}
