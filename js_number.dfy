/**
 * JavaScript's string-to-number conversions as the request handlers use them:
 * `isNaN(string)` (through StringToNumber), `parseInt(string)` with no radix and the
 * conversion of an integral number back to a string. Numbers are integers here:
 * `parseInt` never yields a fraction.
 */
module JsNumber {
  import opened JsString

  /** The result of `parseInt`: NaN or an integer (negative zero is `Int(0)`). */
  datatype Number = NaN | Int(value: int)

  /** Value of a digit in radixes up to 36 (`36` for anything that is not a digit). */
  function DigitValue(c: char): (v: nat)
    ensures v <= 36
  {
    if '0' <= c <= '9' then c as int - '0' as int
    else if 'a' <= c <= 'z' then c as int - 'a' as int + 10
    else if 'A' <= c <= 'Z' then c as int - 'A' as int + 10
    else 36
  }

  predicate IsRadixDigit(c: char, radix: nat) {
    DigitValue(c) < radix
  }

  /** Length of the longest prefix of `s` made of digits of `radix`. */
  function DigitRun(s: string, radix: nat): (k: nat)
    ensures k <= |s|
    ensures forall j :: 0 <= j < k ==> IsRadixDigit(s[j], radix)
    ensures k < |s| ==> !IsRadixDigit(s[k], radix)
  {
    if s != [] && IsRadixDigit(s[0], radix) then 1 + DigitRun(s[1..], radix) else 0
  }

  /** The value of a digit string in `radix`, most significant digit first. */
  function DigitsValue(ds: string, radix: nat): nat {
    if ds == [] then 0
    else DigitsValue(ds[..|ds| - 1], radix) * radix + DigitValue(ds[|ds| - 1])
  }

  /** DecimalDigits: one or more of 0..9. */
  predicate IsDigits(s: string) {
    s != [] && DigitRun(s, 10) == |s|
  }

  predicate IsSign(c: char) {
    c == '+' || c == '-'
  }

  /** ExponentPart, or nothing. */
  predicate IsOptionalExponent(s: string) {
    || s == []
    || (|s| >= 2 && (s[0] == 'e' || s[0] == 'E') &&
        (IsDigits(s[1..]) || (IsSign(s[1]) && IsDigits(s[2..]))))
  }

  /** StrUnsignedDecimalLiteral: `Infinity`, `d`, `d.`, `d.d`, `.d`, each with an optional exponent. */
  predicate IsUnsignedDecimalLiteral(s: string) {
    if s == "Infinity" then true
    else
      var d := DigitRun(s, 10);
      var rest := s[d..];
      if rest != [] && rest[0] == '.' then
        var f := DigitRun(rest[1..], 10);
        d + f > 0 && IsOptionalExponent(rest[1 + f..])
      else
        d > 0 && IsOptionalExponent(rest)
  }

  /** StrDecimalLiteral: an optionally signed StrUnsignedDecimalLiteral. */
  predicate IsDecimalLiteral(s: string) {
    IsUnsignedDecimalLiteral(s) || (s != [] && IsSign(s[0]) && IsUnsignedDecimalLiteral(s[1..]))
  }

  /** NonDecimalIntegerLiteral: `0x`/`0X` hex, `0o`/`0O` octal or `0b`/`0B` binary digits, unsigned. */
  predicate IsNonDecimalIntegerLiteral(s: string) {
    && |s| >= 3 && s[0] == '0'
    && var radix := if s[1] == 'x' || s[1] == 'X' then 16
                    else if s[1] == 'o' || s[1] == 'O' then 8
                    else if s[1] == 'b' || s[1] == 'B' then 2
                    else 0;
       radix > 0 && DigitRun(s[2..], radix) == |s| - 2
  }

  /**
   * StringNumericLiteral: surrounding whitespace around a numeric literal, or
   * whitespace alone (which converts to 0).
   */
  predicate IsStringNumericLiteral(s: string) {
    var t := Trim(s);
    t == [] || IsDecimalLiteral(t) || IsNonDecimalIntegerLiteral(t)
  }

  /** `isNaN(s)` for a string `s`: its conversion to a number fails. */
  predicate IsNaN(s: string) {
    !IsStringNumericLiteral(s)
  }

  /**
   * `parseInt(s)`: skip leading whitespace, take an optional sign, switch to radix 16
   * after `0x`/`0X`, then read the longest run of digits; no digits gives NaN.
   */
  function ParseInt(s: string): Number {
    var t := TrimStart(s);
    var negative := t != [] && t[0] == '-';
    var u := if t != [] && IsSign(t[0]) then t[1..] else t;
    var hex := |u| >= 2 && u[0] == '0' && (u[1] == 'x' || u[1] == 'X');
    var radix := if hex then 16 else 10;
    var v := if hex then u[2..] else u;
    var d := DigitRun(v, radix);
    if d == 0 then NaN
    else
      var m: int := DigitsValue(v[..d], radix);
      Int(if negative then -m else m)
  }

  /** The decimal digits of a natural number, without leading zeros. */
  function NatToDecimal(n: nat): (ds: string)
    ensures IsDigits(ds)
    ensures ds[0] == '0' ==> n == 0
  {
    var last := ['0' + (n % 10) as char];
    if n < 10 then last else NatToDecimal(n / 10) + last
  }

  /** What `"" + x` gives for a `parseInt` result `x`. */
  function NumberToString(x: Number): (s: string)
    ensures s != []
  {
    match x
    case NaN => "NaN"
    case Int(i) => if i < 0 then "-" + NatToDecimal(-i) else NatToDecimal(i)
  }

  lemma {:induction false} NatToDecimalValue(n: nat)
    ensures DigitsValue(NatToDecimal(n), 10) == n
  {
    var ds := NatToDecimal(n);
    if n >= 10 {
      NatToDecimalValue(n / 10);
      assert ds[..|ds| - 1] == NatToDecimal(n / 10);
    }
  }

  /** What a digit string starts and ends with. */
  lemma DigitsShape(ds: string)
    requires IsDigits(ds)
    ensures IsRadixDigit(ds[0], 10) && IsRadixDigit(ds[|ds| - 1], 10)
    ensures !IsWhitespace(ds[0]) && !IsWhitespace(ds[|ds| - 1]) && !IsSign(ds[0])
    ensures |ds| >= 2 ==> ds[1] != 'x' && ds[1] != 'X'
    ensures ds[..DigitRun(ds, 10)] == ds
  {
    if |ds| >= 2 {
      assert IsRadixDigit(ds[1], 10);
    }
  }

  /** `parseInt` of a digit string that is not hex-prefixed reads the whole string. */
  lemma ParseIntOfDigits(ds: string)
    requires IsDigits(ds)
    ensures ParseInt(ds) == Int(DigitsValue(ds, 10))
  {
    DigitsShape(ds);
    TrimUnpadded(ds);
  }

  /** A minus sign in front of a digit string negates what `parseInt` reads. */
  lemma ParseIntOfNegatedDigits(ds: string)
    requires IsDigits(ds)
    ensures ParseInt("-" + ds) == Int(-(DigitsValue(ds, 10) as int))
  {
    var s := "-" + ds;
    DigitsShape(ds);
    assert s[0] == '-' && s[|s| - 1] == ds[|ds| - 1];
    TrimUnpadded(s);
    assert s[1..] == ds;
  }

  /** `parseInt` reads back the string form of any integer it produced. */
  lemma ParseIntNumberToString(i: int)
    ensures ParseInt(NumberToString(Int(i))) == Int(i)
  {
    if i < 0 {
      NegativeToString(i);
    } else {
      var ds := NatToDecimal(i);
      NatToDecimalValue(i);
      ParseIntOfDigits(ds);
    }
  }

  lemma NegativeToString(i: int)
    requires i < 0
    ensures ParseInt(NumberToString(Int(i))) == Int(i)
  {
    var n: nat := -i;
    var ds := NatToDecimal(n);
    NatToDecimalValue(n);
    ParseIntOfNegatedDigits(ds);
    assert ParseInt("-" + ds) == Int(i);
  }

  /** A digit string is a StrUnsignedDecimalLiteral. */
  lemma DigitsAreDecimalLiteral(ds: string)
    requires IsDigits(ds)
    ensures IsUnsignedDecimalLiteral(ds)
  {
    DigitsShape(ds);
    assert ds != "Infinity";
    assert ds[|ds|..] == [];
  }

  /** The string form of an integer is a numeric string, so `isNaN` rejects it. */
  lemma NumberToStringIsNumeric(i: int)
    ensures !IsNaN(NumberToString(Int(i)))
  {
    var ds := NatToDecimal(if i < 0 then -i else i);
    var s := NumberToString(Int(i));
    DigitsShape(ds);
    DigitsAreDecimalLiteral(ds);
    if i < 0 {
      assert s == "-" + ds;
      assert s[0] == '-' && s[|s| - 1] == ds[|ds| - 1];
      assert s[1..] == ds;
    } else {
      assert s == ds;
    }
    TrimUnpadded(s);
  }
}
