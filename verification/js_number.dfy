/**
 * The integer-valued JavaScript numbers the application produces: `parseInt`
 * with radix 10 (section 18.2.5 of ECMA-262, 2019 edition), which yields NaN
 * rather than 0 for text without leading digits, and decimal rendering as
 * done by `Number.prototype.toString` and template literals.
 */
module JsNumber {
  import opened JsText

  /** An integral Number, or NaN. */
  datatype Num = Int(value: int) | NaN

  /** `a - b`: NaN when either operand is NaN. */
  function Minus(a: Num, b: Num): (r: Num)
    ensures r.Int? <==> a.Int? && b.Int?
    ensures r.Int? ==> r.value + b.value == a.value
  {
    if a.Int? && b.Int? then Int(a.value - b.value) else NaN
  }

  /** The result of a comparator as SortCompare reads it (section 22.1.3.27.1 of ECMA-262):
      NaN counts as +0, so both arguments are treated as equal. */
  function CompareResult(n: Num): (v: int)
    ensures n.NaN? ==> v == 0
    ensures n.Int? ==> v == n.value
  {
    match n
    case Int(v) => v
    case NaN => 0
  }

  /** A value is truthy unless it is NaN or zero. */
  predicate Truthy(n: Num) {
    n.Int? && n.value != 0
  }

  predicate IsDigit(c: char) {
    '0' <= c <= '9'
  }

  predicate AllDigits(s: string) {
    forall i | 0 <= i < |s| :: IsDigit(s[i])
  }

  function DigitValue(c: char): nat
    requires IsDigit(c)
  {
    c as int - '0' as int
  }

  function DigitChar(d: nat): (c: char)
    requires d < 10
    ensures IsDigit(c) && DigitValue(c) == d
  {
    (d + '0' as int) as char
  }

  /** The longest prefix of `s` made of decimal digits. */
  function DigitPrefix(s: string): (r: string)
    ensures |r| <= |s| && r == s[..|r|]
    ensures AllDigits(r)
    ensures |r| == |s| || !IsDigit(s[|r|])
  {
    if s != [] && IsDigit(s[0]) then [s[0]] + DigitPrefix(s[1..]) else []
  }

  /** The mathematical value of a digit string read in radix 10. */
  function DigitsValue(ds: string): nat
    requires AllDigits(ds)
  {
    if ds == [] then 0 else DigitsValue(ds[..|ds| - 1]) * 10 + DigitValue(ds[|ds| - 1])
  }

  /**
   * `parseInt(s, 10)`: skip leading whitespace, take an optional sign, then
   * the longest run of decimal digits; NaN when that run is empty.
   */
  function ParseInt(s: string): (r: Num)
    ensures r.NaN? <==> DigitPrefix(UnsignedPart(TrimStart(s))) == []
  {
    var t := TrimStart(s);
    var sign := if t != [] && t[0] == '-' then -1 else 1;
    var digits := DigitPrefix(UnsignedPart(t));
    if digits == [] then NaN else Int(sign * DigitsValue(digits))
  }

  /** What follows a leading sign, if there is one. */
  function UnsignedPart(t: string): string {
    if t != [] && (t[0] == '-' || t[0] == '+') then t[1..] else t
  }

  /** Radix-10 rendering of a natural number, most significant digit first. */
  function Decimal(n: nat): (r: string)
    ensures |r| >= 1 && AllDigits(r)
  {
    if n < 10 then [DigitChar(n)] else Decimal(n / 10) + [DigitChar(n % 10)]
  }

  /** `String(v)` for an integer `v`. */
  function ToDecimalString(v: int): (r: string)
    ensures |r| >= 1
  {
    if v < 0 then "-" + Decimal(-v) else Decimal(v)
  }

  lemma {:induction false} DecimalValue(n: nat)
    ensures DigitsValue(Decimal(n)) == n
  {
    if n >= 10 {
      var d := Decimal(n);
      DecimalValue(n / 10);
      assert d[..|d| - 1] == Decimal(n / 10);
    }
  }

  lemma {:induction false} DigitPrefixStops(ds: string, rest: string)
    requires AllDigits(ds)
    requires rest == [] || !IsDigit(rest[0])
    ensures DigitPrefix(ds + rest) == ds
  {
    if ds != [] {
      assert (ds + rest)[1..] == ds[1..] + rest;
      DigitPrefixStops(ds[1..], rest);
      assert ds == [ds[0]] + ds[1..];
    } else {
      assert ds + rest == rest;
    }
  }

  /** Text that starts with a digit or a minus sign has no leading whitespace to trim. */
  lemma TrimStartKeeps(s: string)
    requires s != [] && (IsDigit(s[0]) || s[0] == '-')
    ensures TrimStart(s) == s
  {
  }

  /** `parseInt` reads back what decimal rendering writes, sign included. */
  lemma ParseDecimal(v: int)
    ensures ParseInt(ToDecimalString(v)) == Int(v)
  {
    var m := if v < 0 then -v else v;
    var d := Decimal(m);
    DecimalValue(m);
    DigitPrefixStops(d, []);
    assert d + [] == d;
    var s := ToDecimalString(v);
    TrimStartKeeps(s);
    if v < 0 {
      assert s == "-" + d;
      assert UnsignedPart(s) == d;
    } else {
      assert UnsignedPart(s) == d;
    }
  }

  lemma ParseZero()
    ensures ParseInt("0") == Int(0)
  {
    ParseDecimal(0);
    assert ToDecimalString(0) == "0";
  }

  /** Trailing text after the digits, such as the "." of a rank cell, is ignored. */
  lemma ParseDecimalThenText(n: nat, rest: string)
    requires rest == [] || !IsDigit(rest[0])
    ensures ParseInt(Decimal(n) + rest) == Int(n)
  {
    var d := Decimal(n);
    DecimalValue(n);
    DigitPrefixStops(d, rest);
    var s := d + rest;
    assert s[0] == d[0];
    TrimStartKeeps(s);
    assert UnsignedPart(s) == s;
  }

  /** Text with no digit at all is NaN, not 0: "", "abc", "-", " ". */
  lemma ParseNonNumeric(s: string)
    requires forall i | 0 <= i < |s| :: !IsDigit(s[i])
    ensures ParseInt(s) == NaN
  {
    var t := TrimStart(s);
    var u := UnsignedPart(t);
    assert u == [] || u[0] in t;
    assert u == [] || u[0] in s;
    assert DigitPrefix(u) == [];
  }
}
