/**
 * The JavaScript values the source inspects (decoded JSON, message payloads), their truthiness,
 * String() conversion, and the global parseInt with an undefined radix (ECMAScript section
 * 19.2.5). `undefined` is `Option.None` wherever a value may be missing.
 */
module Js {
  import opened Wrappers
  import opened Text

  /** A JSON-shaped JavaScript value. Numbers are integral. */
  datatype JsValue =
    | JNull
    | JBool(b: bool)
    | JNum(n: int)
    | JStr(s: string)
    | JArray(items: seq<JsValue>)
    | JObject(fields: map<string, JsValue>)

  /** Boolean(v). */
  predicate Truthy(v: JsValue) {
    match v
    case JNull => false
    case JBool(b) => b
    case JNum(n) => n != 0
    case JStr(s) => |s| > 0
    case JArray(_) => true
    case JObject(_) => true
  }

  /** Truthiness of a possibly undefined value. */
  predicate Present(v: Option<JsValue>) {
    v.Some? && Truthy(v.value)
  }

  /** v.key (or v?.key) on a value that is not null: None is undefined. None of the keys the
      source reads is an inherited property of strings, arrays or primitives. */
  function Get(v: JsValue, key: string): Option<JsValue> {
    if v.JObject? && key in v.fields then Some(v.fields[key]) else None
  }

  /** o?.key on a possibly undefined value. */
  function GetOpt(v: Option<JsValue>, key: string): Option<JsValue> {
    if v.Some? then Get(v.value, key) else None
  }

  function IntToString(i: int): (s: string)
    ensures |s| >= 1
  {
    if i < 0 then "-" + NatToString(-i) else NatToString(i)
  }

  /** String(v); for an array the elements joined by ',', null elements becoming empty. */
  function ToJsString(v: JsValue): string
    decreases v, 1
  {
    match v
    case JNull => "null"
    case JBool(b) => if b then "true" else "false"
    case JNum(n) => IntToString(n)
    case JStr(s) => s
    case JArray(_) => JoinItems(v, 0)
    case JObject(_) => "[object Object]"
  }

  function JoinItems(a: JsValue, i: nat): string
    requires a.JArray? && i <= |a.items|
    decreases a, 0, |a.items| - i
  {
    if i == |a.items| then []
    else
      (if i > 0 then "," else "")
      + (if a.items[i].JNull? then "" else ToJsString(a.items[i]))
      + JoinItems(a, i + 1)
  }

  /** String(v) where v may be undefined. */
  function StringOf(v: Option<JsValue>): string {
    match v
    case None => "undefined"
    case Some(x) => ToJsString(x)
  }

  // ---------------------------------------------------------------------------------------
  // parseInt

  /** A JavaScript number as parseInt can produce it. */
  datatype Num = NaN | Int(value: int)

  predicate NumTruthy(n: Num) {
    n.Int? && n.value != 0
  }

  predicate IsHexDigit(c: char) {
    IsDigit(c) || ('a' <= c <= 'f') || ('A' <= c <= 'F')
  }

  predicate AllHex(s: string) { forall i :: 0 <= i < |s| ==> IsHexDigit(s[i]) }

  function HexDigitValue(c: char): nat
    requires IsHexDigit(c)
  {
    if IsDigit(c) then DigitValue(c)
    else if 'a' <= c <= 'f' then c as int - 'a' as int + 10
    else c as int - 'A' as int + 10
  }

  function HexValue(s: string): nat
    requires AllHex(s)
  {
    if s == [] then 0 else 16 * HexValue(s[..|s| - 1]) + HexDigitValue(s[|s| - 1])
  }

  function LeadingHexDigits(s: string): (r: string)
    ensures |r| <= |s| && r == s[..|r|] && AllHex(r)
    ensures |r| < |s| ==> !IsHexDigit(s[|r|])
  {
    if s != [] && IsHexDigit(s[0]) then [s[0]] + LeadingHexDigits(s[1..]) else []
  }

  predicate HexPrefixed(u: string) {
    |u| >= 2 && u[0] == '0' && (u[1] == 'x' || u[1] == 'X')
  }

  /** The digits after the sign: base 16 after 0x or 0X, otherwise base 10; None when empty. */
  function ParseUnsigned(u: string): (r: Option<nat>)
    ensures u != [] && IsDigit(u[0]) && !HexPrefixed(u) ==> r == Some(DecimalValue(LeadingDigits(u)))
    ensures (u == [] || !IsDigit(u[0])) ==> r == None
  {
    if HexPrefixed(u) then
      var z := LeadingHexDigits(u[2..]);
      if z == [] then None else Some(HexValue(z))
    else
      var z := LeadingDigits(u);
      if z == [] then None else Some(DecimalValue(z))
  }

  /** parseInt(s): skip leading white space, take an optional sign, then read the digits,
      in base 16 after 0x or 0X. */
  function ParseInt(s: string): (r: Num)
    ensures var t := TrimStart(s);
            t != [] && IsDigit(t[0]) && !HexPrefixed(t) ==> r == Int(DecimalValue(LeadingDigits(t)))
    ensures var t := TrimStart(s);
            (t == [] || !(IsDigit(t[0]) || t[0] == '-' || t[0] == '+')) ==> r == NaN
  {
    var t := TrimStart(s);
    var signed := t != [] && (t[0] == '-' || t[0] == '+');
    var u := if signed then t[1..] else t;
    match ParseUnsigned(u)
    case None => NaN
    case Some(m) => Int(if signed && t[0] == '-' then 0 - m as int else m)
  }

  /** A sign is taken once, then the digits are read as without it: decimal, or hexadecimal
      after 0x or 0X, and NaN when no digit follows. */
  lemma ParseIntSigned(s: string)
    ensures var t := TrimStart(s);
            t != [] && (t[0] == '-' || t[0] == '+') ==>
              var u := t[1..];
              (u == [] || !IsDigit(u[0]) ==> ParseInt(s) == NaN)
              && (u != [] && IsDigit(u[0]) && !HexPrefixed(u) ==>
                    ParseInt(s) == Int(if t[0] == '-' then -(DecimalValue(LeadingDigits(u)) as int) else DecimalValue(LeadingDigits(u))))
    ensures var t := TrimStart(s);
            var u := if t != [] && (t[0] == '-' || t[0] == '+') then t[1..] else t;
            HexPrefixed(u) ==>
              var z := LeadingHexDigits(u[2..]);
              ParseInt(s) == if z == [] then NaN else Int(if t[0] == '-' then -(HexValue(z) as int) else HexValue(z))
  {
  }

  /** parseInt inverts String on integers. */
  lemma ParseIntRoundTrip(i: int)
    ensures ParseInt(IntToString(i)) == Int(i)
  {
    var n: nat := if i < 0 then -i else i;
    var d := NatToString(n);
    assert IsDigit(d[0]);
    LeadingDigitsOfDigits(d);
    assert !HexPrefixed(d) by {
      if |d| >= 2 { assert IsDigit(d[1]); }
    }
    assert ParseUnsigned(d) == Some(n);
    if i < 0 {
      var s := "-" + d;
      assert IntToString(i) == s;
      assert s[0] == '-' && !IsJsSpace(s[0]);
      assert TrimStart(s) == s;
      assert s[1..] == d;
    } else {
      assert IntToString(i) == d;
      assert TrimStart(d) == d;
    }
  }

  /** parseInt of a string made of digits and commas, as the price parser produces it. */
  lemma ParseIntDigitsCommas(s: string)
    requires forall i :: 0 <= i < |s| ==> IsDigit(s[i]) || s[i] == ','
    ensures ParseInt(s) == if s != [] && IsDigit(s[0]) then Int(DecimalValue(LeadingDigits(s))) else NaN
  {
    if s != [] {
      assert TrimStart(s) == s;
      assert !HexPrefixed(s) by {
        if |s| >= 2 { assert IsDigit(s[1]) || s[1] == ','; }
      }
    }
  }

  /** parseInt of a non-empty digit string is its decimal value; of the empty string, NaN. */
  lemma ParseIntDigits(s: string)
    requires AllDigits(s)
    ensures ParseInt(s) == if s == [] then NaN else Int(DecimalValue(s))
  {
    ParseIntDigitsCommas(s);
    LeadingDigitsOfDigits(s);
  }

  /** parseInt(p.replace(/\D/g, '')) || 0, as the JavaScript writes it. */
  function ParsedField(part: string): int {
    match ParseInt(Digits(part))
    case NaN => 0
    case Int(n) => if n != 0 then n else 0
  }

  /** The value of a countdown part: the number its digits form, 0 when it has none. */
  function FieldValue(part: string): nat {
    DecimalValue(Digits(part))
  }

  /** Stripping the non-digits, parsing and defaulting to 0 is the decimal value of the digits. */
  lemma FieldValueAgrees(part: string)
    ensures ParsedField(part) == FieldValue(part)
  {
    ParseIntDigits(Digits(part));
  }
}
