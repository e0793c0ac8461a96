/** Scalar values and the text they print as. */
module Values {
  const INT64_MIN: int := -0x8000_0000_0000_0000
  const INT64_MAX: int := 0x7fff_ffff_ffff_ffff

  predicate InInt64(n: int) { INT64_MIN <= n <= INT64_MAX }

  type int64 = n: int | InInt64(n)

  /** The range of a 64-bit integer, in decimal. */
  lemma InInt64Exactly(n: int)
    ensures InInt64(n) <==> -9223372036854775808 <= n <= 9223372036854775807
  {}

  /** A double is an identity and the text `operator<<` prints for it; nothing
      says that different doubles print differently. */
  datatype Real64 = Real64(id: int, text: string)

  /** The value of a digit character; 16 when it is none. */
  function DigitOf(c: char): (d: nat) {
    if '0' <= c <= '9' then c as int - '0' as int
    else if 'a' <= c <= 'f' then c as int - 'a' as int + 10
    else if 'A' <= c <= 'F' then c as int - 'A' as int + 10
    else 16
  }

  function DigitChar(d: nat): (c: char)
    requires d < 10
    ensures DigitOf(c) == d && '0' <= c <= '9'
    ensures c == '0' <==> d == 0
  {
    (d + '0' as int) as char
  }

  function DecimalText(n: nat): string {
    if n < 10 then [DigitChar(n)] else DecimalText(n / 10) + [DigitChar(n % 10)]
  }

  function IntText(n: int): string {
    if n < 0 then "-" + DecimalText(-n) else DecimalText(n)
  }

  datatype ValueType = NullType | BoolType | IntType | DoubleType | StringType

  datatype Value =
    | Null
    | Bool(b: bool)
    | Int(n: int64)
    | Double(d: Real64)
    | Str(s: string)
  {
    function Type(): ValueType {
      match this
      case Null => NullType
      case Bool(_) => BoolType
      case Int(_) => IntType
      case Double(_) => DoubleType
      case Str(_) => StringType
    }

    function ToText(): string {
      match this
      case Null => "null"
      case Bool(b) => if b then "true" else "false"
      case Int(n) => IntText(n)
      case Double(d) => d.text
      case Str(s) => s
    }
  }

  predicate AllDigits(s: string, base: nat) {
    forall i :: 0 <= i < |s| ==> DigitOf(s[i]) < base
  }

  function DigitsValue(s: string, base: nat): nat {
    if s == "" then 0 else DigitsValue(s[..|s| - 1], base) * base + DigitOf(s[|s| - 1])
  }

  lemma {:induction false} DecimalTextReads(n: nat)
    ensures DecimalText(n) != "" && AllDigits(DecimalText(n), 10)
    ensures DigitsValue(DecimalText(n), 10) == n
    ensures DecimalText(n)[0] == '0' <==> n == 0
    ensures '0' <= DecimalText(n)[0] <= '9'
  {
    var s := DecimalText(n);
    if n < 10 {
      assert DigitsValue(s[..0], 10) == 0;
    } else {
      DecimalTextReads(n / 10);
      assert s[..|s| - 1] == DecimalText(n / 10);
      assert s[0] == DecimalText(n / 10)[0];
    }
  }
}
