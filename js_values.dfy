/**
 * The JavaScript values that `JSON.parse` can produce, and the parts of the
 * language's implicit conversions that the interceptor relies on:
 * truthiness (`||`, `if (jwt)`), ToNumber (`decodedJwt.exp * 1000`) and
 * ToString (`new Error(message)`).
 *
 * Numbers are restricted to integers; `None` stands for NaN.
 */
module JsValues {
  import opened Wrappers

  datatype Json =
    | JNull
    | JBool(b: bool)
    | JNum(n: int)
    | JStr(s: string)
    | JArr(items: seq<Json>)
    | JObj(fields: map<string, Json>)

  /** ToBoolean: the falsy values are null, false, 0 and the empty string. */
  predicate Truthy(v: Json) {
    match v
    case JNull => false
    case JBool(b) => b
    case JNum(n) => n != 0
    case JStr(s) => s != ""
    case JArr(_) => true
    case JObj(_) => true
  }

  /** Property read `v.key` on a parsed value; `None` is `undefined`, `Err` is the
      TypeError raised when reading a property of null. */
  function Property(v: Json, key: string): (r: Result<Option<Json>, ()>)
    ensures r.Err? <==> v == JNull
    ensures r.Ok? && r.value.Some? ==> v.JObj? && key in v.fields && r.value.value == v.fields[key]
    ensures v.JObj? && key in v.fields ==> r == Ok(Some(v.fields[key]))
    ensures v != JNull && !(v.JObj? && key in v.fields) ==> r == Ok(None)
  {
    match v
    case JNull => Err(())
    case JObj(fields) => Ok(if key in fields then Some(fields[key]) else None)
    case _ => Ok(None)
  }

  // ----- decimal digits -----

  predicate IsDigit(c: char) {
    '0' <= c <= '9'
  }

  predicate AllDigits(s: string) {
    forall i :: 0 <= i < |s| ==> IsDigit(s[i])
  }

  function DigitsValue(s: string): nat
    requires AllDigits(s)
  {
    if s == [] then 0 else DigitsValue(s[..|s| - 1]) * 10 + (s[|s| - 1] as int - '0' as int)
  }

  function DigitChar(d: nat): (c: char)
    requires d < 10
    ensures IsDigit(c) && c as int - '0' as int == d
  {
    ('0' as int + d) as char
  }

  /** Decimal rendering of a natural number, no leading zeros. */
  function NatToDecimal(n: nat): (s: string)
    ensures s != [] && AllDigits(s)
    ensures |s| > 1 ==> s[0] != '0'
  {
    if n < 10 then [DigitChar(n)] else NatToDecimal(n / 10) + [DigitChar(n % 10)]
  }

  /** Number::toString for an integer (plain decimal notation). */
  function IntToDecimal(n: int): string {
    if n < 0 then "-" + NatToDecimal(-n) else NatToDecimal(n)
  }

  lemma {:induction false} DecimalRoundTrip(n: nat)
    ensures DigitsValue(NatToDecimal(n)) == n
  {
    if n >= 10 {
      DecimalRoundTrip(n / 10);
      var s := NatToDecimal(n);
      assert s[..|s| - 1] == NatToDecimal(n / 10);
    }
  }

  /** StringToNumber, for the empty string and optionally signed runs of ASCII digits;
      every other string is NaN here. */
  function StringToNumber(s: string): (r: Option<int>)
    ensures AllDigits(s) ==> r == Some(DigitsValue(s))
  {
    if AllDigits(s) then Some(DigitsValue(s))
    else if |s| > 1 && s[0] == '-' && AllDigits(s[1..]) then Some(0 - DigitsValue(s[1..]) as int)
    else if |s| > 1 && s[0] == '+' && AllDigits(s[1..]) then Some(DigitsValue(s[1..]))
    else None
  }

  /** Rendering an integer and reading it back gives the integer. */
  lemma IntToDecimalRoundTrip(n: int)
    ensures StringToNumber(IntToDecimal(n)) == Some(n)
  {
    if n < 0 {
      var s := IntToDecimal(n);
      assert s[1..] == NatToDecimal(-n);
      assert s[0] == '-' && !IsDigit(s[0]);
      DecimalRoundTrip(-n);
    } else {
      DecimalRoundTrip(n);
    }
  }

  // ----- ToString and ToNumber -----

  /** Array.prototype.join with ",". */
  function JoinCommas(parts: seq<string>): string {
    if parts == [] then "" else if |parts| == 1 then parts[0] else parts[0] + "," + JoinCommas(parts[1..])
  }

  /** ToPrimitive throws a TypeError: `JSON.parse` stores an own "toString" key as data, which
      cannot be called, and `valueOf` gives back the object itself. An array converts through
      its elements, so such an object anywhere inside an array throws as well. */
  predicate Unconvertible(v: Json)
    decreases v
  {
    match v
    case JObj(fields) => "toString" in fields
    case JArr(items) => exists i :: 0 <= i < |items| && Unconvertible(items[i])
    case _ => false
  }

  /** ToString; an array renders as its elements joined by "," with null elements empty;
      `Err` is the TypeError of ToPrimitive. */
  function ToJsString(v: Json): (r: Result<string, ()>)
    ensures r.Err? <==> Unconvertible(v)
    ensures v.JStr? ==> r == Ok(v.s)
    ensures v.JNum? ==> r == Ok(IntToDecimal(v.n))
    decreases v
  {
    match v
    case JNull => Ok("null")
    case JBool(b) => Ok(if b then "true" else "false")
    case JNum(n) => Ok(IntToDecimal(n))
    case JStr(s) => Ok(s)
    case JArr(items) =>
      var parts := seq(|items|, i requires 0 <= i < |items| =>
        if items[i] == JNull then Ok("") else ToJsString(items[i]));
      if exists i :: 0 <= i < |parts| && parts[i].Err? then Err(())
      else
        assert forall i :: 0 <= i < |items| ==> parts[i] == (if items[i] == JNull then Ok("") else ToJsString(items[i]));
        assert forall i :: 0 <= i < |items| ==> !Unconvertible(items[i]);
        Ok(JoinCommas(seq(|parts|, i requires 0 <= i < |parts| => parts[i].value)))
    case JObj(fields) => if "toString" in fields then Err(()) else Ok("[object Object]")
  }

  /** ToNumber; arrays and objects go through their string rendering, and throw where it does. */
  function ToNumber(v: Json): (r: Result<Option<int>, ()>)
    ensures r.Err? <==> Unconvertible(v)
  {
    match v
    case JNull => Ok(Some(0))
    case JBool(b) => Ok(Some(if b then 1 else 0))
    case JNum(n) => Ok(Some(n))
    case JStr(s) => Ok(StringToNumber(s))
    case JArr(_) =>
      var s :- ToJsString(v);
      Ok(StringToNumber(s))
    case JObj(_) =>
      var s :- ToJsString(v);
      Ok(StringToNumber(s))
  }

  /** A number, a numeric string and a one-element array of a number all give the number;
      the empty array is 0; an object is NaN, unless it has its own "toString" key, when the
      conversion throws, and so does an array holding such an object. */
  lemma ToNumberCoercions(n: int)
    ensures ToNumber(JStr(IntToDecimal(n))) == Ok(Some(n))
    ensures ToNumber(JArr([JNum(n)])) == Ok(Some(n))
    ensures ToNumber(JArr([])) == Ok(Some(0))
    ensures forall m :: "toString" !in m ==> ToNumber(JObj(m)) == Ok(None)
    ensures forall m :: "toString" in m ==> ToNumber(JObj(m)).Err? && ToNumber(JArr([JNum(n), JObj(m)])).Err?
  {
    IntToDecimalRoundTrip(n);
    assert ToJsString(JArr([JNum(n)])) == Ok(IntToDecimal(n));
    assert ToJsString(JArr([])) == Ok("");
    forall m | "toString" !in m ensures ToNumber(JObj(m)) == Ok(None) {
      assert "[object Object]"[0] == '[';
    }
    forall m | "toString" in m ensures ToNumber(JArr([JNum(n), JObj(m)])).Err? {
      var a := [JNum(n), JObj(m)];
      assert Unconvertible(a[1]);
    }
  }
}
