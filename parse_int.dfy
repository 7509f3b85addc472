/**
 * `parseInt(string, 10)` as section 19.2.5 of ECMA-262 defines it, for the
 * radix the table code always passes, and `getIntegerAttribute`, which turns a
 * `rowspan`/`colspan` attribute into a span.
 */
module JsParseInt {
  import opened Basics
  import opened Text

  /** The results `parseInt` can give with radix 10: NaN or an integer (`-0` is folded into `0`). */
  datatype Number = NaN | Int(value: int)

  /** StrWhiteSpaceChar of section 7.1.4.1 of ECMA-262: WhiteSpace (section 12.2) and LineTerminator (section 12.3). */
  predicate IsStrWhiteSpace(ch: char)
  {
    ch == '\t' || ch == '\U{000B}' || ch == '\U{000C}' || ch == '\U{FEFF}'
    // Space_Separator (Zs)
    || ch == ' ' || ch == '\U{00A0}' || ch == '\U{1680}' || '\U{2000}' <= ch <= '\U{200A}'
    || ch == '\U{202F}' || ch == '\U{205F}' || ch == '\U{3000}'
    // LineTerminator
    || ch == '\n' || ch == '\r' || ch == '\U{2028}' || ch == '\U{2029}'
  }

  /** Step 2: the string with its leading white space removed. */
  function TrimStart(s: string): (t: string)
    ensures |t| <= |s| && t == s[|s| - |t|..]
    ensures t != [] ==> !IsStrWhiteSpace(t[0])
    ensures forall i :: 0 <= i < |s| - |t| ==> IsStrWhiteSpace(s[i])
  {
    if s != [] && IsStrWhiteSpace(s[0]) then TrimStart(s[1..]) else s
  }

  /** Step 11: the longest prefix made of radix-10 digits. */
  function DigitPrefix(s: string): (z: string)
    ensures |z| <= |s| && z == s[..|z|]
    ensures forall i :: 0 <= i < |z| ==> IsDigit(z[i])
    ensures |z| < |s| ==> !IsDigit(s[|z|])
  {
    if s != [] && IsDigit(s[0]) then [s[0]] + DigitPrefix(s[1..]) else []
  }

  /** `parseInt(s, 10)`. */
  function ParseInt(s: string): Number
  {
    ParseTrimmed(TrimStart(s))
  }

  /** Steps 4 to 16, on the string once its leading white space is gone. */
  function ParseTrimmed(t: string): Number
  {
    var negative := t != [] && t[0] == '-';
    var u := if t != [] && (t[0] == '+' || t[0] == '-') then t[1..] else t;
    var z := DigitPrefix(u);
    if z == [] then NaN
    else if negative then Int(0 - DigitsValue(z)) else Int(DigitsValue(z))
  }

  /** `getIntegerAttribute(el, attr)`: 1 when the attribute is absent or does not start with a number. */
  function GetIntegerAttribute(attr: Option<string>): (v: int)
    ensures attr.None? ==> v == 1
    ensures attr.Some? && ParseInt(attr.value).NaN? ==> v == 1
    ensures attr.Some? && ParseInt(attr.value).Int? ==> v == ParseInt(attr.value).value
  {
    match attr
    case None => 1
    case Some(s) =>
      match ParseInt(s)
      case NaN => 1
      case Int(n) => n
  }

  lemma {:induction false} DigitPrefixAll(z: string, rest: string)
    requires forall i :: 0 <= i < |z| ==> IsDigit(z[i])
    requires rest == [] || !IsDigit(rest[0])
    ensures DigitPrefix(z + rest) == z
  {
    if z != [] {
      assert (z + rest)[1..] == z[1..] + rest;
      DigitPrefixAll(z[1..], rest);
      assert [z[0]] + z[1..] == z;
    } else {
      assert z + rest == rest;
    }
  }

  lemma TrimStartNonSpace(s: string)
    requires s == [] || !IsStrWhiteSpace(s[0])
    ensures TrimStart(s) == s
  {
  }

  /** Reading a printed span back: `parseInt(`${n}` + rest, 10) == n` whenever `rest` does not continue the numeral. */
  lemma ParseDecimal(n: nat, rest: string)
    requires rest == [] || !IsDigit(rest[0])
    ensures ParseInt(DecimalString(n) + rest) == Int(n)
  {
    var s := DecimalString(n) + rest;
    assert s[0] == DecimalString(n)[0];
    TrimStartNonSpace(s);
    DigitPrefixAll(DecimalString(n), rest);
    DecimalStringValue(n);
  }

  /** A leading minus sign negates. */
  lemma ParseNegative(n: nat)
    ensures ParseInt("-" + DecimalString(n)) == Int(0 - n)
  {
    var s := "-" + DecimalString(n);
    TrimStartNonSpace(s);
    assert s[1..] == DecimalString(n) + [];
    DigitPrefixAll(DecimalString(n), []);
    DecimalStringValue(n);
  }

  lemma {:induction false} TrimStartSkips(ws: string, s: string)
    requires forall i :: 0 <= i < |ws| ==> IsStrWhiteSpace(ws[i])
    ensures TrimStart(ws + s) == TrimStart(s)
  {
    if ws != [] {
      assert (ws + s)[0] == ws[0];
      assert (ws + s)[1..] == ws[1..] + s;
      TrimStartSkips(ws[1..], s);
    } else {
      assert ws + s == s;
    }
  }

  /** Leading white space does not change the result. */
  lemma ParseSkipsWhiteSpace(ws: string, s: string)
    requires forall i :: 0 <= i < |ws| ==> IsStrWhiteSpace(ws[i])
    ensures ParseInt(ws + s) == ParseInt(s)
  {
    TrimStartSkips(ws, s);
  }

  /** NaN exactly when, past white space and one sign, no digit follows. */
  lemma ParseNaN(s: string)
    ensures ParseInt(s).NaN? <==>
      var t := TrimStart(s);
      var u := if t != [] && (t[0] == '+' || t[0] == '-') then t[1..] else t;
      u == [] || !IsDigit(u[0])
  {
  }

  /** A span attribute holding a numeral gives that number. */
  lemma GetIntegerAttributeNumeral(n: nat)
    ensures GetIntegerAttribute(Some(DecimalString(n))) == n
  {
    ParseDecimal(n, []);
    assert DecimalString(n) + [] == DecimalString(n);
  }

  /** Absent, empty and non-numeric attributes give a span of 1. */
  lemma GetIntegerAttributeDefault()
    ensures GetIntegerAttribute(None) == 1
    ensures GetIntegerAttribute(Some("")) == 1
    ensures GetIntegerAttribute(Some("x2")) == 1
  {
    assert !IsStrWhiteSpace('x') && !IsDigit('x');
    TrimStartNonSpace("x2");
  }

  /** Surrounding white space is ignored. */
  lemma GetIntegerAttributePadded()
    ensures GetIntegerAttribute(Some(" 3 ")) == 3
  {
    var t := " 3 "[1..];
    assert t == "3 " && t[1..] == " ";
    assert TrimStart(" 3 ") == TrimStart(t);
    assert !IsStrWhiteSpace('3');
    assert TrimStart(t) == t;
    assert DigitPrefix(t[1..]) == [];
    assert DigitPrefix(t) == "3";
    assert DigitsValue("3") == DigitsValue([]) * 10 + DigitValue('3');
  }

  /** A trailing unit is ignored. */
  lemma GetIntegerAttributeUnit()
    ensures GetIntegerAttribute(Some("2px")) == 2
  {
    var two := DecimalString(2);
    assert two == "2";
    ParseDecimal(2, "px");
    assert "2px" == two + "px";
  }

  /** `-0` reads as 0. */
  lemma GetIntegerAttributeNegativeZero()
    ensures GetIntegerAttribute(Some("-0")) == 0
  {
    var zero := DecimalString(0);
    assert zero == "0";
    ParseNegative(0);
    assert "-0" == "-" + zero;
  }
}
