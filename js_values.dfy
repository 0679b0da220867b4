/** The JavaScript values an options object can carry, and the conversions
    the wrapper applies to them: truthiness, the `(v || {}).constructor`
    test, and conversion to text by `+` and by `Array.prototype.join`. */
module JsValues {
  import opened Strings

  /** A JavaScript value as the wrapper meets it in an options object.
      Numbers are integers; arrays hold strings. */
  datatype JsValue =
    | Str(s: string)
    | Num(n: int)
    | Arr(items: seq<string>)
    | Bool(b: bool)
    | Null
    | Undefined

  /** The constructor functions a `.constructor` lookup yields for these values. */
  datatype Ctor = ObjectCtor | StringCtor | NumberCtor | ArrayCtor | BooleanCtor

  /** JavaScript truthiness: `''`, `0`, `false`, `null` and `undefined` are falsy;
      every array, even an empty one, is truthy. */
  predicate Truthy(v: JsValue) {
    match v
    case Str(s) => s != ""
    case Num(n) => n != 0
    case Arr(_) => true
    case Bool(b) => b
    case Null => false
    case Undefined => false
  }

  /** `(v || {}).constructor`: a falsy value is replaced by a plain object first,
      so it reports `Object` whatever its own type. */
  function ConstructorOf(v: JsValue): (c: Ctor)
    ensures c == ObjectCtor <==> !Truthy(v)
    ensures Truthy(v) ==> (c == StringCtor <==> v.Str?) && (c == NumberCtor <==> v.Num?)
    ensures Truthy(v) ==> (c == ArrayCtor <==> v.Arr?) && (c == BooleanCtor <==> v.Bool?)
  {
    if !Truthy(v) then ObjectCtor
    else
      match v
      case Str(_) => StringCtor
      case Num(_) => NumberCtor
      case Arr(_) => ArrayCtor
      case Bool(_) => BooleanCtor
      case Null => ObjectCtor
      case Undefined => ObjectCtor
  }

  // ---------------------------------------------------------------------
  // decimal numerals

  predicate AllDigits(s: string) {
    forall i :: 0 <= i < |s| ==> IsDigit(s[i])
  }

  function DigitChar(d: nat): (c: char)
    requires d < 10
    ensures IsDigit(c)
  {
    ('0' as int + d) as char
  }

  function DigitValue(c: char): (d: nat)
    requires IsDigit(c)
    ensures d < 10 && DigitChar(d) == c
  {
    c as int - '0' as int
  }

  /** `String(n)` for a non-negative integer: its decimal numeral, with no leading zero. */
  function NatToString(n: nat): (s: string)
    ensures |s| >= 1 && AllDigits(s)
    ensures |s| > 1 ==> s[0] != '0'
  {
    if n < 10 then [DigitChar(n)] else NatToString(n / 10) + [DigitChar(n % 10)]
  }

  /** `parseInt(s, 10)` on a non-empty run of decimal digits: the number it denotes. */
  function DigitsValue(s: string): nat
    requires AllDigits(s)
  {
    if s == [] then 0 else DigitsValue(s[..|s| - 1]) * 10 + DigitValue(s[|s| - 1])
  }

  /** Reading back the numeral of `n` gives `n`. */
  lemma {:induction false} DigitsValueOfNatToString(n: nat)
    ensures DigitsValue(NatToString(n)) == n
  {
    var s := NatToString(n);
    if n >= 10 {
      DigitsValueOfNatToString(n / 10);
      assert s[..|s| - 1] == NatToString(n / 10);
      assert DigitValue(s[|s| - 1]) == n % 10;
    } else {
      assert DigitValue(s[0]) == n;
    }
  }

  /** `String(n)` for any integer. */
  function IntToString(n: int): string {
    if n < 0 then "-" + NatToString(-n) else NatToString(n)
  }

  /** `String(v)`, the text `+` produces when a string is added to `v`. */
  function ToJsString(v: JsValue): string {
    match v
    case Str(s) => s
    case Num(n) => IntToString(n)
    case Arr(items) => Join(items, ",")
    case Bool(b) => if b then "true" else "false"
    case Null => "null"
    case Undefined => "undefined"
  }

  /** How `Array.prototype.join` writes one element: `null` and `undefined` as
      nothing, everything else as `String(v)`. */
  function JoinText(v: JsValue): string {
    if v.Null? || v.Undefined? then "" else ToJsString(v)
  }
}
