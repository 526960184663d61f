/**
 * The two number conversions the dynamic-content rule performs on the
 * `ContentID` query parameter: the global `parseInt` (radix omitted) and the
 * decimal text of the parsed number in a template literal.
 */
module JsNumbers {
  import opened Wrappers

  /** StrWhiteSpaceChar of ECMAScript: its WhiteSpace and LineTerminator code points. */
  predicate IsJsWhitespace(c: char) {
    var n := c as int;
    (9 <= n <= 13) || n == 0x20 || n == 0xA0 || n == 0x1680 || (0x2000 <= n <= 0x200A)
    || n == 0x2028 || n == 0x2029 || n == 0x202F || n == 0x205F || n == 0x3000 || n == 0xFEFF
  }

  /** `s` without its leading white space. */
  function TrimStart(s: string): (r: string)
    ensures |r| <= |s| && r == s[|s| - |r|..]
    ensures r != [] ==> !IsJsWhitespace(r[0])
    ensures forall i :: 0 <= i < |s| - |r| ==> IsJsWhitespace(s[i])
  {
    if s != [] && IsJsWhitespace(s[0]) then TrimStart(s[1..]) else s
  }

  /** The value of `c` as a digit in base 10 or 16 (letters of either case). */
  function DigitValue(c: char, radix: nat): (v: Option<nat>)
    requires radix == 10 || radix == 16
    ensures v.Some? ==> v.value < radix
  {
    var d :=
      if '0' <= c <= '9' then c as int - '0' as int
      else if 'a' <= c <= 'z' then c as int - 'a' as int + 10
      else if 'A' <= c <= 'Z' then c as int - 'A' as int + 10
      else 36;
    if d < radix then Some(d) else None
  }

  predicate AllDigits(s: string, radix: nat)
    requires radix == 10 || radix == 16
  {
    forall i :: 0 <= i < |s| ==> DigitValue(s[i], radix).Some?
  }

  /** The longest prefix of `s` made of digits. */
  function LeadingDigits(s: string, radix: nat): (ds: string)
    requires radix == 10 || radix == 16
    ensures ds <= s && AllDigits(ds, radix)
    ensures |ds| < |s| ==> DigitValue(s[|ds|], radix).None?
  {
    if s != [] && DigitValue(s[0], radix).Some? then [s[0]] + LeadingDigits(s[1..], radix) else []
  }

  /** The number a digit string denotes, most significant digit first. */
  function DigitsValue(ds: string, radix: nat): nat
    requires radix == 10 || radix == 16
  {
    if ds == [] then 0
    else DigitsValue(ds[..|ds| - 1], radix) * radix + DigitValue(ds[|ds| - 1], radix).GetOr(0)
  }

  /** The number denoted by the longest run of digits at the front of `v`; `None` when there is none. */
  function LeadingNumber(v: string, radix: nat): Option<nat>
    requires radix == 10 || radix == 16
  {
    var ds := LeadingDigits(v, radix);
    if ds == [] then None else Some(DigitsValue(ds, radix))
  }

  predicate HasHexPrefix(u: string) {
    |u| >= 2 && u[0] == '0' && (u[1] == 'x' || u[1] == 'X')
  }

  /** The unsigned part: a "0x"/"0X" prefix selects base 16, otherwise base 10. */
  function ParseMagnitude(u: string): Option<nat> {
    if HasHexPrefix(u) then LeadingNumber(u[2..], 16) else LeadingNumber(u, 10)
  }

  /**
   * `parseInt(s)` with no radix: leading white space is skipped, one sign is
   * taken, a "0x"/"0X" prefix selects base 16, and the longest run of digits
   * that follows is read; no digit at all gives `NaN` (here `None`). The
   * value of a run too long for a double is not rounded here.
   */
  function ParseInt(s: string): (r: Option<int>)
    ensures TrimStart(s) == [] ==> r.None?
    ensures r.Some? && r.value < 0 ==> TrimStart(s)[0] == '-'
    ensures var t := TrimStart(s);
      t != [] && DigitValue(t[0], 10).Some? && !HasHexPrefix(t) ==> r.Some? && r.value >= 0
  {
    var t := TrimStart(s);
    if t != [] && t[0] == '-' then
      match ParseMagnitude(t[1..])
      case Some(m) => Some(-(m as int))
      case None => None
    else if t != [] && t[0] == '+' then
      match ParseMagnitude(t[1..])
      case Some(m) => Some(m)
      case None => None
    else
      match ParseMagnitude(t)
      case Some(m) => Some(m)
      case None => None
  }

  function DecimalDigit(d: nat): (c: char)
    requires d < 10
    ensures DigitValue(c, 10) == Some(d)
  {
    ('0' as int + d) as char
  }

  /**
   * The decimal text of a natural number (no leading zero), as a template
   * literal prints a Number below 10^21; from 10^21 on JavaScript prints an
   * exponent form, which this function does not.
   */
  function IntToString(n: nat): (s: string)
    ensures s != [] && AllDigits(s, 10)
    ensures n > 0 ==> s[0] != '0'
  {
    if n < 10 then [DecimalDigit(n)] else IntToString(n / 10) + [DecimalDigit(n % 10)]
  }

  lemma {:induction false} IntToStringValue(n: nat)
    ensures DigitsValue(IntToString(n), 10) == n
  {
    if n >= 10 {
      IntToStringValue(n / 10);
      var s := IntToString(n);
      assert s[..|s| - 1] == IntToString(n / 10);
    }
  }

  lemma {:induction false} LeadingDigitsOfDigits(s: string, radix: nat)
    requires radix == 10 || radix == 16
    requires AllDigits(s, radix)
    ensures LeadingDigits(s, radix) == s
  {
    if s != [] {
      LeadingDigitsOfDigits(s[1..], radix);
    }
  }

  /** A digit string, leading zeros included, parses as the number it denotes. */
  lemma ParseIntOfDecimal(s: string)
    requires s != [] && AllDigits(s, 10)
    ensures ParseInt(s) == Some(DigitsValue(s, 10))
  {
    assert '0' <= s[0] <= '9' by {
      assert DigitValue(s[0], 10).Some?;
    }
    assert !IsJsWhitespace(s[0]);
    assert TrimStart(s) == s;
    assert !HasHexPrefix(s);
    LeadingDigitsOfDigits(s, 10);
    assert ParseMagnitude(s) == Some(DigitsValue(s, 10));
  }

  /** `parseInt` reads back the decimal text of every natural number. */
  lemma ParseIntToString(n: nat)
    ensures ParseInt(IntToString(n)) == Some(n)
  {
    var s := IntToString(n);
    ParseIntOfDecimal(s);
    IntToStringValue(n);
  }

  /** Leading zeros are read as part of the number. */
  lemma ParseIntLeadingZeros()
    ensures ParseInt("007") == Some(7)
  {
    var s := "007";
    assert AllDigits(s, 10) by {
      assert DigitValue(s[0], 10).Some? && DigitValue(s[1], 10).Some? && DigitValue(s[2], 10).Some?;
    }
    ParseIntOfDecimal(s);
    assert DigitsValue("0", 10) == 0 by {
      assert "0"[..0] == [];
    }
    assert DigitsValue("00", 10) == 0 by {
      assert "00"[..1] == "0";
    }
    assert DigitsValue(s, 10) == 7 by {
      assert s[..2] == "00";
    }
  }

  /** The digits stop at the first character that is not one. */
  lemma ParseIntStopsAtNonDigit()
    ensures ParseInt("42abc") == Some(42)
  {
    var s := "42abc";
    assert !IsJsWhitespace(s[0]);
    assert TrimStart(s) == s;
    assert s[0] != '-' && s[0] != '+';
    assert !HasHexPrefix(s);
    assert LeadingDigits(s[2..], 10) == [];
    assert LeadingDigits(s[1..], 10) == "2";
    assert LeadingDigits(s, 10) == "42";
    assert DigitsValue("4", 10) == 4 by {
      assert "4"[..0] == [];
    }
    assert DigitsValue("42", 10) == 42 by {
      assert "42"[..1] == "4";
    }
  }

  /** A text that starts with no digit is not a number. */
  lemma ParseIntNoDigits()
    ensures ParseInt("abc") == None
  {
    var s := "abc";
    assert !IsJsWhitespace(s[0]);
    assert TrimStart(s) == s;
    assert s[0] != '-' && s[0] != '+';
    assert !HasHexPrefix(s);
    assert LeadingDigits(s, 10) == [];
  }
}
