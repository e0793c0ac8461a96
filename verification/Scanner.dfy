/** The quote/escape/comment scanner and the unquoter of the key-value loader. */
module Scanner {
  import opened Text
  import opened Sequences

  predicate IsComment(c: char) { c == '#' || c == ';' }

  predicate StartsWithComment(s: string) { s != "" && IsComment(s[0]) }

  predicate IsSpecial(c: char) { IsComment(c) || c == '"' || c == '\'' || c == '\\' }

  /** No comment sign, quote or backslash. */
  predicate Plain(s: string) { forall i :: 0 <= i < |s| ==> !IsSpecial(s[i]) }

  /** How many characters precede the first comment sign outside quotes, when the
      scan starts with the given quote flags. */
  function Scan(s: string, single: bool, double: bool): (n: nat)
    ensures n <= |s|
  {
    if s == "" then 0
    else if s[0] == '\\' && |s| > 1 then 2 + Scan(s[2..], single, double)
    else
      var single' := if s[0] == '\'' && !double then !single else single;
      var double' := if s[0] == '"' && !single' then !double else double;
      if !single' && !double' && IsComment(s[0]) then 0
      else 1 + Scan(s[1..], single', double')
  }

  /** A comment sign ends the text outside quotes and is passed over inside. */
  lemma ScanSign(sign: char, t: string)
    requires sign == '#' || sign == ';'
    ensures Scan([sign] + t, false, false) == 0
    ensures Scan([sign] + t, true, false) == 1 + Scan(t, true, false)
    ensures Scan([sign] + t, false, true) == 1 + Scan(t, false, true)
  {
    assert ([sign] + t)[1..] == t;
  }

  /** A backslash takes the next character with it, a comment sign or a quote included, in
      and out of quotes. */
  lemma ScanEscape(c: char, t: string, single: bool, double: bool)
    ensures Scan(['\\', c] + t, single, double) == 2 + Scan(t, single, double)
  {
    assert (['\\', c] + t)[2..] == t;
  }

  /** A quote opens and closes its own kind, and is text inside the other kind. */
  lemma ScanQuote(t: string)
    ensures Scan("'" + t, false, false) == 1 + Scan(t, true, false)
    ensures Scan("'" + t, true, false) == 1 + Scan(t, false, false)
    ensures Scan("'" + t, false, true) == 1 + Scan(t, false, true)
    ensures Scan("\"" + t, false, false) == 1 + Scan(t, false, true)
    ensures Scan("\"" + t, false, true) == 1 + Scan(t, false, false)
    ensures Scan("\"" + t, true, false) == 1 + Scan(t, true, false)
  {
    assert ("'" + t)[1..] == t && ("\"" + t)[1..] == t;
  }

  function Strip(s: string): string { Trim(s[..Scan(s, false, false)]) }

  method StripInlineComment(text: string) returns (r: string)
    ensures r == Strip(text)
  {
    var inSingle, inDouble := false, false;
    var i := 0;
    while i < |text|
      invariant 0 <= i <= |text|
      invariant Scan(text, false, false) == i + Scan(text[i..], inSingle, inDouble)
    {
      var c := text[i];
      assert text[i..][0] == c && text[i..][1..] == text[i + 1..];
      if c == '\\' && i + 1 < |text| {
        assert text[i..][2..] == text[i + 2..];
        i := i + 2;
      } else {
        if c == '\'' && !inDouble { inSingle := !inSingle; }
        if c == '"' && !inSingle { inDouble := !inDouble; }
        if !inSingle && !inDouble && IsComment(c) { return Trim(text[..i]); }
        i := i + 1;
      }
    }
    assert text[..i] == text;
    r := Trim(text);
  }

  function Unescaped(c: char): char {
    if c == 'n' then '\n' else if c == 't' then '\t' else if c == 'r' then '\r' else c
  }

  /** The text between two quotes with its escapes resolved; a backslash just
      before the closing quote stands for itself. */
  function Unescape(body: string): string {
    if body == "" then ""
    else if body[0] == '\\' && |body| > 1 then [Unescaped(body[1])] + Unescape(body[2..])
    else [body[0]] + Unescape(body[1..])
  }

  /** What a backslash makes of the next character. */
  lemma EscapesExactly(c: char)
    ensures Unescape(['\\', c]) == if c == 'n' then "\n" else if c == 't' then "\t" else if c == 'r' then "\r" else [c]
    ensures Unescape(['\\']) == ['\\']
  {
    assert ['\\', c][2..] == "";
  }

  /** Does the body have an escape at j? */
  predicate EscapeAt(body: string, j: nat) { j + 1 < |body| && body[j] == '\\' }

  lemma UnescapeStep(body: string, j: nat)
    requires j < |body|
    ensures EscapeAt(body, j) ==> Unescape(body[j..]) == [Unescaped(body[j + 1])] + Unescape(body[j + 2..])
    ensures !EscapeAt(body, j) ==> Unescape(body[j..]) == [body[j]] + Unescape(body[j + 1..])
  {}

  predicate IsQuoted(s: string) {
    |s| >= 2 && s[0] == s[|s| - 1] && (s[0] == '"' || s[0] == '\'')
  }

  function Unquote(s: string): string {
    var t := Trim(s);
    if IsQuoted(t) then Unescape(t[1..|t| - 1]) else t
  }

  // The loop of unquote_copy over the characters between the quotes.
  method UnescapeInner(text: string) returns (out: string)
    requires |text| >= 2
    ensures out == Unescape(text[1..|text| - 1])
  {
    out := "";
    var i := 1;
    ghost var body := text[1..|text| - 1];
    while i + 1 < |text|
      invariant 1 <= i <= |text| - 1
      invariant Unescape(body) == out + Unescape(body[i - 1..])
    {
      UnescapeStep(body, i - 1);
      if text[i] == '\\' && i + 2 < |text| {
        assert EscapeAt(body, i - 1);
        i := i + 1;
        Reassociate(out, [Unescaped(text[i])], Unescape(body[i..]));
        out := out + [Unescaped(text[i])];
      } else {
        assert !EscapeAt(body, i - 1);
        Reassociate(out, [text[i]], Unescape(body[i..]));
        out := out + [text[i]];
      }
      i := i + 1;
    }
  }

  method UnquoteCopy(s: string) returns (out: string)
    ensures out == Unquote(s)
  {
    var text := Trim(s);
    out := text;
    if |text| >= 2 {
      var first, last := text[0], text[|text| - 1];
      if (first == '"' && last == '"') || (first == '\'' && last == '\'') {
        out := UnescapeInner(text);
      }
    }
  }

  // ---- comment stripping ----

  lemma {:induction false} ScanPlain(p: string, t: string)
    requires Plain(p)
    ensures Scan(p + t, false, false) == |p| + Scan(t, false, false)
  {
    if p == "" {
      assert p + t == t;
    } else {
      assert (p + t)[0] == p[0] && (p + t)[1..] == p[1..] + t;
      ScanPlain(p[1..], t);
    }
  }

  /** Scanning a prefix stops where the whole scan stops, or at its end. */
  lemma {:induction false} ScanPrefix(s: string, m: nat, single: bool, double: bool)
    requires m <= |s|
    ensures var n := Scan(s, single, double);
            Scan(s[..m], single, double) == if n < m then n else m
  {
    if m == 0 {
    } else if s[0] == '\\' && |s| > 1 {
      if m == 1 {
        assert s[..1][1..] == "";
        assert Scan(s[..1][1..], single, double) == 0;
      } else {
        assert s[..m][2..] == s[2..][..m - 2];
        ScanPrefix(s[2..], m - 2, single, double);
      }
    } else {
      assert s[..m][1..] == s[1..][..m - 1];
      var single' := if s[0] == '\'' && !double then !single else single;
      var double' := if s[0] == '"' && !single' then !double else double;
      ScanPrefix(s[1..], m - 1, single', double');
    }
  }

  /** `t` is what stripping leaves of `x`, with `a` and `b` the spaces around it. */
  lemma StripSplit(x: string) returns (a: string, b: string)
    ensures x[..Scan(x, false, false)] == a + Strip(x) + b
    ensures AllSpace(a) && AllSpace(b) && Tight(Strip(x))
    ensures Scan(Strip(x), false, false) == |Strip(x)|
  {
    var n := Scan(x, false, false);
    a, b := TrimSplit(x[..n]);
    var t := Strip(x);
    ScanPrefix(x, n, false, false);
    ScanPlain(a, t + b);
    assert a + t + b == a + (t + b);
    ScanPrefix(t + b, |t|, false, false);
    assert (t + b)[..|t|] == t;
  }

  /** Stripping a stripped text changes nothing. */
  lemma StripIdempotent(x: string)
    ensures Strip(Strip(x)) == Strip(x)
  {
    var a, b := StripSplit(x);
    assert Strip(x)[..|Strip(x)|] == Strip(x);
    TrimTight(Strip(x));
  }

  lemma ScanAroundSpaces(a: string, t: string, b: string)
    requires AllSpace(a)
    ensures var m := Scan(t + b, false, false);
            Scan(a + (t + b), false, false) == |a| + m &&
            Scan(t, false, false) == if m < |t| then m else |t|
  {
    ScanPlain(a, t + b);
    ScanPrefix(t + b, |t|, false, false);
    assert (t + b)[..|t|] == t;
  }

  lemma StripIs(x: string, a: string, t: string, b: string)
    requires x[..Scan(x, false, false)] == a + t + b
    requires AllSpace(a) && AllSpace(b) && Tight(t)
    ensures Strip(x) == t
  {
    TrimUnique(a, t, b);
  }

  lemma StripAroundSpaces(a: string, t: string, b: string)
    requires AllSpace(a) && AllSpace(b) && Tight(t)
    ensures Strip(a + (t + b)) == Strip(t)
  {
    var x, m := a + (t + b), Scan(t + b, false, false);
    ScanAroundSpaces(a, t, b);
    if m <= |t| {
      var kept := t[..m];
      var c, d := TrimSplit(kept);
      PrefixOfConcat(a, t, b, m);
      AbsorbLeft(a, c, Trim(kept), d);
      StripIs(x, a + c, Trim(kept), d);
    } else {
      assert x[..|a| + m] == a + t + b[..m - |t|];
      StripIs(x, a, t, b[..m - |t|]);
      assert t[..|t|] == "" + t + "";
      StripIs(t, "", t, "");
    }
  }

  /** Outer spaces do not matter to comment stripping. */
  lemma StripOfTrim(x: string)
    ensures Strip(Trim(x)) == Strip(x)
  {
    var a, b := TrimSplit(x);
    assert x == a + (Trim(x) + b);
    StripAroundSpaces(a, Trim(x), b);
  }

  // ---- quoting ----

  /** One character as it is written between double quotes. */
  function EscapedChar(c: char): string {
    if c == '\n' then "\\n"
    else if c == '\t' then "\\t"
    else if c == '\r' then "\\r"
    else if c == '\\' || c == '"' then ['\\', c]
    else [c]
  }

  function Escape(s: string): string {
    if s == "" then "" else EscapedChar(s[0]) + Escape(s[1..])
  }

  function Quote(s: string): string { "\"" + Escape(s) + "\"" }

  lemma {:induction false} UnescapeEscape(s: string)
    ensures Unescape(Escape(s)) == s
  {
    if s != "" {
      UnescapeEscape(s[1..]);
      var e, rest := EscapedChar(s[0]), Escape(s[1..]);
      assert (e + rest)[|e|..] == rest;
      assert s == [s[0]] + s[1..];
    }
  }

  lemma ScanEscapedChar(c: char, rest: string)
    ensures Scan(EscapedChar(c) + rest, false, true) == |EscapedChar(c)| + Scan(rest, false, true)
  {}

  /** A scan inside double quotes passes over an escaped text and its closing quote. */
  lemma {:induction false} ScanEscaped(s: string, t: string)
    ensures Scan(Escape(s) + "\"" + t, false, true) == |Escape(s)| + 1 + Scan(t, false, false)
  {
    if s == "" {
      assert ("" + "\"" + t)[1..] == t;
    } else {
      var rest := Escape(s[1..]) + "\"" + t;
      assert Escape(s) + "\"" + t == EscapedChar(s[0]) + rest;
      ScanEscapedChar(s[0], rest);
      ScanEscaped(s[1..], t);
    }
  }

  lemma ScanQuoted(s: string, t: string)
    ensures Scan(Quote(s) + t, false, false) == |Quote(s)| + Scan(t, false, false)
  {
    ScanEscaped(s, t);
    assert (Quote(s) + t)[1..] == Escape(s) + "\"" + t;
  }

  lemma UnquoteQuote(s: string)
    ensures Unquote(Quote(s)) == s
  {
    TrimTight(Quote(s));
    assert Quote(s)[1..|Quote(s)| - 1] == Escape(s);
    UnescapeEscape(s);
  }

  /** Single quotes protect any text without a single quote or a backslash. */
  predicate Literal(s: string) { '\'' !in s && '\\' !in s }

  function SingleQuote(s: string): string { "'" + s + "'" }

  lemma {:induction false} ScanInSingle(s: string, t: string)
    requires Literal(s)
    ensures Scan(s + "'" + t, true, false) == |s| + 1 + Scan(t, false, false)
  {
    var text := s + "'" + t;
    if s == "" {
      assert text[1..] == t;
    } else {
      assert text[1..] == s[1..] + "'" + t;
      ScanInSingle(s[1..], t);
    }
  }

  lemma ScanSingleQuoted(s: string, t: string)
    requires Literal(s)
    ensures Scan(SingleQuote(s) + t, false, false) == |SingleQuote(s)| + Scan(t, false, false)
  {
    ScanInSingle(s, t);
    assert (SingleQuote(s) + t)[1..] == s + "'" + t;
  }

  lemma {:induction false} UnescapeLiteral(s: string)
    requires Literal(s)
    ensures Unescape(s) == s
  {
    if s != "" {
      UnescapeLiteral(s[1..]);
      assert s == [s[0]] + s[1..];
    }
  }

  lemma UnquoteSingle(s: string)
    requires Literal(s)
    ensures Unquote(SingleQuote(s)) == s
  {
    TrimTight(SingleQuote(s));
    assert SingleQuote(s)[1..|SingleQuote(s)| - 1] == s;
    UnescapeLiteral(s);
  }

  /** Only a pair of equal quotes is taken off: any other text is its trimmed self. */
  lemma UnquoteExactly(s: string)
    ensures var t := Trim(s);
            var quoted := |t| >= 2 && ((t[0] == '"' && t[|t| - 1] == '"') || (t[0] == '\'' && t[|t| - 1] == '\''));
            Unquote(s) == if quoted then Unescape(t[1..|t| - 1]) else t
  {}

  lemma UnquotePlain(s: string)
    requires Plain(s) && Tight(s)
    ensures Unquote(s) == s
  {}

  /** Tight, without a comment sign that the scanner would see, and not itself in quotes. */
  predicate NeedsNoQuoting(s: string) {
    Tight(s) && Scan(s, false, false) == |s| && !IsQuoted(s)
  }

  lemma {:induction false} UnescapeNeverGrows(body: string)
    ensures |Unescape(body)| <= |body|
  {
    if body != "" {
      if body[0] == '\\' && |body| > 1 { UnescapeNeverGrows(body[2..]); } else { UnescapeNeverGrows(body[1..]); }
    }
  }

  lemma UnquoteNeverGrows(s: string)
    ensures |Unquote(Strip(s))| <= |s|
  {
    var t := Strip(s);
    var a, b := TrimSplit(s[..Scan(s, false, false)]);
    TrimTight(t);
    if IsQuoted(t) { UnescapeNeverGrows(t[1..|t| - 1]); }
  }

  /** An unquoted text survives stripping and unquoting exactly when it needs no quoting. */
  lemma SurvivesExactly(s: string)
    ensures Unquote(Strip(s)) == s <==> NeedsNoQuoting(s)
  {
    var a, b := StripSplit(s);
    var t := Strip(s);
    TrimTight(t);
    if IsQuoted(t) { UnescapeNeverGrows(t[1..|t| - 1]); }
    assert s[..|s|] == s;
    if NeedsNoQuoting(s) { TrimTight(s); }
  }

  lemma PlainNeedsNoQuoting(s: string)
    requires Plain(s) && Tight(s)
    ensures NeedsNoQuoting(s) && Strip(s) == s
  {
    ScanPlain(s, "");
    assert s + "" == s && s[..|s|] == s;
    TrimTight(s);
  }
}
