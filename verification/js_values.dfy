/** The JavaScript values a hast `properties` entry can hold, together with
    the two language rules the transform leans on: truthiness (`if (value)`,
    `value || d`) and string conversion (`String(value)`, which is also what
    the DOM's `setAttribute` applies to a non-string argument). Numbers are
    integers plus a distinct `NaN`; non-integral floats are not modelled. */
module JsValues {

  /** One entry of an array-valued property (hast allows strings and numbers). */
  datatype Item = ItemStr(s: string) | ItemNum(n: int)

  datatype Value =
    | Bool(b: bool)
    | Str(s: string)
    | Num(n: int)
    | NaN
    | Null
    | Undefined
    | List(items: seq<Item>)

  /** A namespace slot as JavaScript holds it: `undefined`, `null`, or a string. */
  datatype JsNs = Undef | NullNs | Uri(uri: string)

  /** JavaScript truthiness: `false`, `""`, `0`, `NaN`, `null` and `undefined`
      are falsy; everything else, every array included, is truthy. */
  predicate Truthy(v: Value)
  {
    match v
    case Bool(b) => b
    case Str(s) => s != ""
    case Num(n) => n != 0
    case NaN => false
    case Null => false
    case Undefined => false
    case List(_) => true
  }

  /** Truthiness of a namespace slot (`ctx.impliedNamespace || namespace`). */
  predicate NsTruthy(ns: JsNs)
  {
    ns.Uri? && ns.uri != ""
  }

  predicate IsDigit(c: char)
  {
    '0' <= c <= '9'
  }

  predicate AllDigits(s: string)
  {
    forall i :: 0 <= i < |s| ==> IsDigit(s[i])
  }

  function DigitChar(d: nat): (c: char)
    requires d < 10
    ensures IsDigit(c)
  {
    "0123456789"[d]
  }

  function DigitValue(c: char): (d: nat)
    requires IsDigit(c)
    ensures d < 10
  {
    (c as int - '0' as int) as nat
  }

  /** Decimal digits of a natural number, most significant first. */
  function NaturalToString(n: nat): (s: string)
    ensures |s| >= 1 && AllDigits(s)
    ensures s[0] == '0' ==> n == 0
  {
    if n < 10 then [DigitChar(n)]
    else NaturalToString(n / 10) + [DigitChar(n % 10)]
  }

  /** `String(n)` for an integral number: an optional minus sign, then digits. */
  function NumberToString(n: int): (s: string)
    ensures |s| >= 1
    ensures n >= 0 <==> s[0] != '-'
  {
    if n < 0 then "-" + NaturalToString(-n) else NaturalToString(n)
  }

  /** Reads back a non-empty run of decimal digits. */
  function ParseNatural(s: string): nat
    requires |s| >= 1 && AllDigits(s)
    decreases |s|
  {
    if |s| == 1 then DigitValue(s[0])
    else ParseNatural(s[..|s| - 1]) * 10 + DigitValue(s[|s| - 1])
  }

  /** Reads back the text `NumberToString` produces. */
  function ParseNumber(s: string): int
    requires |s| >= 1
    requires s[0] == '-' ==> |s| >= 2 && AllDigits(s[1..])
    requires s[0] != '-' ==> AllDigits(s)
  {
    if s[0] == '-' then -(ParseNatural(s[1..]) as int) else ParseNatural(s)
  }

  lemma {:induction false} NaturalToStringRoundTrip(n: nat)
    ensures ParseNatural(NaturalToString(n)) == n
    decreases n
  {
    if n >= 10 {
      var s := NaturalToString(n);
      NaturalToStringRoundTrip(n / 10);
      assert s[..|s| - 1] == NaturalToString(n / 10);
      assert DigitValue(s[|s| - 1]) == n % 10;
    }
  }

  /** `String(n)` loses nothing: the decimal text reads back as `n`. */
  lemma NumberToStringRoundTrip(n: int)
    ensures var s := NumberToString(n);
      (s[0] == '-' ==> |s| >= 2 && AllDigits(s[1..])) &&
      (s[0] != '-' ==> AllDigits(s)) &&
      ParseNumber(s) == n
  {
    var s := NumberToString(n);
    if n < 0 {
      assert s[1..] == NaturalToString(-n);
      NaturalToStringRoundTrip(-n);
    } else {
      NaturalToStringRoundTrip(n);
    }
  }

  function ItemToString(i: Item): string
  {
    match i
    case ItemStr(s) => s
    case ItemNum(n) => NumberToString(n)
  }

  /** `Array.prototype.join(sep)` over string and number entries. */
  function Join(items: seq<Item>, sep: string): string
  {
    if items == [] then ""
    else if |items| == 1 then ItemToString(items[0])
    else ItemToString(items[0]) + sep + Join(items[1..], sep)
  }

  /** `String(value)`. An array converts through `join(",")`. */
  function ToJsString(v: Value): string
  {
    match v
    case Bool(b) => if b then "true" else "false"
    case Str(s) => s
    case Num(n) => NumberToString(n)
    case NaN => "NaN"
    case Null => "null"
    case Undefined => "undefined"
    case List(items) => Join(items, ",")
  }
}
