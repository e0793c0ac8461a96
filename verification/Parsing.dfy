/** Typed value parsing: `parse_value`, `infer_value` and the `strtoll` beneath them. */
module Parsing {
  import opened Wrappers
  import opened Text
  import opened Values
  import opened Scanner

  /** `std::stod` on a trimmed text of which it must consume everything. */
  type DoubleParser = string -> Option<Real64>

  function LowerChar(c: char): char {
    if 'A' <= c <= 'Z' then (c as int + 32) as char else c
  }

  function Lower(s: string): (t: string)
    ensures |t| == |s| && forall i :: 0 <= i < |s| ==> t[i] == LowerChar(s[i])
  {
    if s == "" then "" else [LowerChar(s[0])] + Lower(s[1..])
  }

  /** Length of the longest prefix of digits in the base. */
  function DigitRun(s: string, base: nat): (n: nat)
    ensures n <= |s| && AllDigits(s[..n], base)
    ensures n < |s| ==> DigitOf(s[n]) >= base
  {
    if s == "" || DigitOf(s[0]) >= base then 0
    else
      var m := DigitRun(s[1..], base);
      assert s[..1 + m] == [s[0]] + s[1..][..m];
      1 + m
  }

  predicate Signed(t: string) { t != "" && (t[0] == '+' || t[0] == '-') }

  /** The base strtoll picks in base 0, for what follows the sign. */
  function PickBase(r: string): nat {
    if |r| > 2 && r[0] == '0' && (r[1] == 'x' || r[1] == 'X') && DigitOf(r[2]) < 16 then 16
    else if r != "" && r[0] == '0' then 8
    else 10
  }

  datatype Conversion = NoConversion | Conversion(value: int, used: nat)

  /** `strtoll(t, &end, 0)`: the unbounded value and how many characters it used. */
  function StrToLL(t: string): Conversion {
    var sign := if Signed(t) then 1 else 0;
    var r := t[sign..];
    var base := PickBase(r);
    var skip := if base == 16 then 2 else 0;
    var n := DigitRun(r[skip..], base);
    if n == 0 then NoConversion
    else
      var magnitude: int := DigitsValue(r[skip..][..n], base);
      Conversion(if Signed(t) && t[0] == '-' then -magnitude else magnitude, sign + skip + n)
  }

  function ParseInt(text: string): Option<int64> {
    var t := Trim(text);
    match StrToLL(t)
    case NoConversion => None        // std::invalid_argument
    case Conversion(v, used) =>
      if !InInt64(v) then None       // std::out_of_range
      else if used != |t| then None
      else Some(v)
  }

  function ParseBool(text: string): Option<bool> {
    var lowered := Lower(Trim(text));
    if lowered == "1" || lowered == "true" || lowered == "yes" || lowered == "on" then Some(true)
    else if lowered == "0" || lowered == "false" || lowered == "no" || lowered == "off" then Some(false)
    else None
  }

  function ParseValue(text: string, ty: ValueType, stod: DoubleParser): Option<Value> {
    match ty
    case NullType => Some(Null)
    case StringType => Some(Str(text))
    case BoolType => (match ParseBool(text) case None => None case Some(b) => Some(Bool(b)))
    case IntType => (match ParseInt(text) case None => None case Some(n) => Some(Int(n)))
    case DoubleType => (match stod(Trim(text)) case None => None case Some(d) => Some(Double(d)))
  }

  function InferValue(raw: string, stod: DoubleParser): Value {
    var text := Unquote(raw);
    var b := ParseBool(text);
    var i := ParseInt(text);
    if b.Some? then Bool(b.value)
    else if i.Some? then Int(i.value)
    else if '.' in text && stod(Trim(text)).Some? then Double(stod(Trim(text)).value)
    else Str(text)
  }

  // ---- the base-0 numerals of section 7.22.1.4 of ISO/IEC 9899:2011 ----

  predicate IsDecimal(r: string) { r != "" && r[0] != '0' && AllDigits(r, 10) }
  predicate IsOctal(r: string) { r != "" && r[0] == '0' && AllDigits(r, 8) }
  predicate IsHex(r: string) {
    |r| > 2 && r[0] == '0' && (r[1] == 'x' || r[1] == 'X') && AllDigits(r[2..], 16)
  }

  function Unsigned(t: string): string { if Signed(t) then t[1..] else t }

  predicate IsNumeral(t: string) {
    var r := Unsigned(t);
    IsDecimal(r) || IsOctal(r) || IsHex(r)
  }

  function NumeralValue(t: string): int {
    var r := Unsigned(t);
    var m := if IsHex(r) then DigitsValue(r[2..], 16)
             else if IsOctal(r) then DigitsValue(r, 8)
             else DigitsValue(r, 10);
    if Signed(t) && t[0] == '-' then -m else m
  }

  lemma DigitRunWhole(s: string, base: nat)
    ensures DigitRun(s, base) == |s| <==> AllDigits(s, base)
  {
    var n := DigitRun(s, base);
    assert n == |s| ==> s[..n] == s;
  }

  lemma NotHex(r: string)
    requires PickBase(r) != 16 || AllDigits(r, 10)
    ensures !IsHex(r)
  {}

  /** strtoll uses a whole text, and converts it to the number it denotes, exactly on numerals. */
  lemma StrToLLExact(t: string)
    ensures var c := StrToLL(t);
            (c.Conversion? && c.used == |t| <==> IsNumeral(t)) &&
            (IsNumeral(t) ==> c.value == NumeralValue(t))
  {
    var r := Unsigned(t);
    var base := PickBase(r);
    var skip := if base == 16 then 2 else 0;
    var digits := r[skip..];
    var n := DigitRun(digits, base);
    DigitRunWhole(digits, base);
    if n == |digits| { assert digits[..n] == digits; }
    if base == 16 {
      assert DigitOf(r[1]) == 16;
      assert digits[0] == r[2];
    } else {
      assert digits == r;
      NotHex(r);
    }
  }

  /** A text parses as an integer exactly when, trimmed, it is a whole numeral
      that fits in 64 bits; it then parses as the number it denotes. */
  lemma ParseIntExact(text: string)
    ensures var t := Trim(text);
            ParseInt(text) ==
              if IsNumeral(t) && InInt64(NumeralValue(t)) then Some(NumeralValue(t)) else None
  {
    StrToLLExact(Trim(text));
  }

  lemma DecimalTextIsNumeral(m: nat)
    ensures var d := DecimalText(m);
            !IsHex(d) && !Signed(d) && Plain(d) && '\n' !in d &&
            d != "" && '0' <= d[0] <= '9' && !IsSpace(d[|d| - 1]) &&
            if m == 0 then IsOctal(d) && DigitsValue(d, 8) == 0
            else IsDecimal(d) && DigitsValue(d, 10) == m
  {}

  lemma IntTextIsNumeral(n: int)
    ensures IsNumeral(IntText(n)) && NumeralValue(IntText(n)) == n
    ensures Tight(IntText(n)) && Plain(IntText(n)) && '\n' !in IntText(n)
  {
    var d := DecimalText(if n < 0 then -n else n);
    DecimalTextIsNumeral(if n < 0 then -n else n);
    if n < 0 {
      assert IntText(n)[1..] == d;
    }
    assert Unsigned(IntText(n)) == d;
  }

  /** Printing and parsing an integer gives it back, the extremes included. */
  lemma ParsePrintedInt(n: int64)
    ensures ParseInt(IntText(n)) == Some(n)
  {
    IntTextIsNumeral(n);
    ParseIntExact(IntText(n));
    TrimTight(IntText(n));
  }

  lemma IntTextInjective(n: int, k: int)
    requires IntText(n) == IntText(k)
    ensures n == k
  {
    IntTextIsNumeral(n);
    IntTextIsNumeral(k);
  }

  lemma ParseBoolOfNumeral(s: string)
    requires Tight(s) && s != "" && (s[0] == '-' || '0' <= s[0] <= '9')
    ensures ParseBool(s) == if s == "0" then Some(false) else if s == "1" then Some(true) else None
  {}

  lemma ParseBoolOfInt(n: int)
    ensures ParseBool(IntText(n)) == if n == 0 then Some(false) else if n == 1 then Some(true) else None
  {
    IntTextIsNumeral(n);
    DecimalTextIsNumeral(if n < 0 then -n else n);
    ParseBoolOfNumeral(IntText(n));
    if IntText(n) == "0" {
      assert IntText(0) == "0";
      IntTextInjective(n, 0);
    } else if IntText(n) == "1" {
      assert IntText(1) == "1";
      IntTextInjective(n, 1);
    }
  }

  lemma ParsePrintedBool(b: bool)
    ensures ParseBool(if b then "true" else "false") == Some(b)
  {}

  /** Inference reads back every printed Bool, and every printed integer but 0 and 1,
      which it reads as Bools. */
  lemma InferPrinted(v: Value, stod: DoubleParser)
    requires v.Bool? || v.Int?
    ensures InferValue(v.ToText(), stod) ==
            if v == Int(0) then Bool(false) else if v == Int(1) then Bool(true) else v
  {
    match v {
      case Bool(b) =>
        UnquotePlain(v.ToText());
        ParsePrintedBool(b);
      case Int(n) =>
        IntTextIsNumeral(n);
        UnquotePlain(IntText(n));
        ParseBoolOfInt(n);
        ParsePrintedInt(n);
    }
  }

  /** Printing then parsing at the value's own type gives the value back (doubles aside). */
  lemma ParsePrinted(v: Value, stod: DoubleParser)
    requires !v.Double?
    ensures ParseValue(v.ToText(), v.Type(), stod) == Some(v)
  {
    match v {
      case Null =>
      case Str(_) =>
      case Bool(b) => ParsePrintedBool(b);
      case Int(n) => ParsePrintedInt(n);
    }
  }

  // ---- what each text stands for ----

  /** The same text, letter case aside. */
  predicate SameButCase(s: string, t: string) {
    |s| == |t| &&
    forall i :: 0 <= i < |s| ==>
      s[i] == t[i] ||
      ('A' <= s[i] <= 'Z' && 'a' <= t[i] <= 'z' && s[i] as int - 'A' as int == t[i] as int - 'a' as int)
  }

  predicate MeansTrue(text: string) {
    var t := Trim(text);
    SameButCase(t, "1") || SameButCase(t, "true") || SameButCase(t, "yes") || SameButCase(t, "on")
  }

  predicate MeansFalse(text: string) {
    var t := Trim(text);
    SameButCase(t, "0") || SameButCase(t, "false") || SameButCase(t, "no") || SameButCase(t, "off")
  }

  lemma LowerIs(s: string, t: string)
    requires forall i :: 0 <= i < |t| ==> !('A' <= t[i] <= 'Z')
    ensures Lower(s) == t <==> SameButCase(s, t)
  {
    if SameButCase(s, t) {
      forall i | 0 <= i < |s| ensures Lower(s)[i] == t[i] {}
    }
  }

  /** The eight words for Bools, in any letter case, and no others. */
  lemma ParseBoolExact(text: string)
    ensures ParseBool(text) == Some(true) <==> MeansTrue(text)
    ensures ParseBool(text) == Some(false) <==> MeansFalse(text)
  {
    var t := Trim(text);
    LowerIs(t, "1");
    LowerIs(t, "true");
    LowerIs(t, "yes");
    LowerIs(t, "on");
    LowerIs(t, "0");
    LowerIs(t, "false");
    LowerIs(t, "no");
    LowerIs(t, "off");
  }

  /** A numeral whose value fits in 64 bits. */
  predicate MeansInt(text: string) { IsNumeral(Trim(text)) && InInt64(NumeralValue(Trim(text))) }

  /** A text at each type. */
  lemma ParseValueExact(text: string, ty: ValueType, stod: DoubleParser)
    ensures ty.NullType? ==> ParseValue(text, ty, stod) == Some(Null)
    ensures ty.StringType? ==> ParseValue(text, ty, stod) == Some(Str(text))
    ensures ty.BoolType? ==>
              ParseValue(text, ty, stod) == if MeansTrue(text) then Some(Bool(true))
                                            else if MeansFalse(text) then Some(Bool(false)) else None
    ensures ty.IntType? ==>
              ParseValue(text, ty, stod) == if MeansInt(text) then Some(Int(NumeralValue(Trim(text)))) else None
    ensures ty.DoubleType? && stod(Trim(text)).Some? ==>
              ParseValue(text, ty, stod) == Some(Double(stod(Trim(text)).value))
    ensures ty.DoubleType? && stod(Trim(text)).None? ==> ParseValue(text, ty, stod) == None
  {
    ParseBoolExact(text);
    ParseIntExact(text);
  }

  /** A text without a type: Bools first, then integers, then doubles with a point, and the
      unquoted text itself when it is none of these. */
  lemma InferValueExact(raw: string, stod: DoubleParser)
    ensures var text := Unquote(raw);
            InferValue(raw, stod) ==
              if MeansTrue(text) then Bool(true)
              else if MeansFalse(text) then Bool(false)
              else if MeansInt(text) then Int(NumeralValue(Trim(text)))
              else if '.' in text && stod(Trim(text)).Some? then Double(stod(Trim(text)).value)
              else Str(text)
  {
    ParseBoolExact(Unquote(raw));
    ParseIntExact(Unquote(raw));
  }

  /** The sixteen digits, in either case, and nothing else. */
  lemma DigitOfExactly(c: char, i: nat)
    requires i < 16
    ensures DigitOf(c) == i <==>
            if i < 10 then c as int == '0' as int + i
            else c as int == 'a' as int + i - 10 || c as int == 'A' as int + i - 10
    ensures DigitOf(c) <= 16
  {}

  lemma TwoDigits(s: string, base: nat)
    requires |s| == 2
    ensures DigitsValue(s, base) == DigitOf(s[0]) * base + DigitOf(s[1])
  {
    assert s[..1] == [s[0]] && s[..1][..0] == "";
    assert DigitsValue(s[..1], base) == DigitsValue("", base) * base + DigitOf(s[0]);
  }

  lemma HexExample(t: string)
    requires t == "-0x1F"
    ensures IsNumeral(t) && NumeralValue(t) == -31
  {
    var r := t[1..];
    assert Unsigned(t) == r && r[0] == '0' && r[1] == 'x' && r[2] == '1' && r[3] == 'F';
    TwoDigits(r[2..], 16);
  }

  lemma OctalExample(t: string)
    requires t == "+017"
    ensures IsNumeral(t) && NumeralValue(t) == 15
  {
    var r := t[1..];
    assert Unsigned(t) == r && r[0] == '0' && r[1] == '1' && r[2] == '7';
    assert r[..2] == "01";
    TwoDigits(r[..2], 8);
    assert DigitsValue(r, 8) == DigitsValue(r[..2], 8) * 8 + DigitOf('7');
  }

  lemma DecimalExample(t: string)
    requires t == "90"
    ensures IsNumeral(t) && NumeralValue(t) == 90
  {
    assert Unsigned(t) == t && t[0] == '9' && t[1] == '0';
    TwoDigits(t, 10);
  }

  /** A numeral of each base. */
  lemma NumeralExamples()
    ensures IsNumeral("-0x1F") && NumeralValue("-0x1F") == -31
    ensures IsNumeral("+017") && NumeralValue("+017") == 15
    ensures IsNumeral("90") && NumeralValue("90") == 90
  {
    HexExample("-0x1F");
    OctalExample("+017");
    DecimalExample("90");
  }

  /** Texts that only look like one: an octal with an 8, a binary prefix, a hexadecimal prefix
      or a sign alone. */
  lemma NearNumerals()
    ensures !IsNumeral("08") && !IsNumeral("0b1") && !IsNumeral("0x") && !IsNumeral("") && !IsNumeral("-")
  {
    assert "08"[1] == '8' && "0b1"[1] == 'b' && "0x"[1] == 'x';
  }
}
