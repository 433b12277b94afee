/** Small shared vocabulary: an optional value, and the JavaScript values that the
    site's scripts read out of parsed JSON before coercing them with `String(...)`. */
module Common {

  datatype Option<+T> = None | Some(value: T)

  /** A JSON field as JavaScript sees it: absent (`undefined`), `null`, a string,
      an integral number or a boolean. Objects, arrays and fractional numbers are
      not modelled as field values. */
  datatype JsValue = Undefined | Null | Str(s: string) | Num(n: int) | Bool(b: bool)

  /** JavaScript truthiness (`NaN` is not modelled). */
  predicate Truthy(v: JsValue) {
    match v
    case Undefined => false
    case Null => false
    case Str(s) => s != []
    case Num(n) => n != 0
    case Bool(b) => b
  }

  function DigitChar(d: nat): (c: char)
    requires d < 10
    ensures '0' <= c <= '9'
  {
    ['0', '1', '2', '3', '4', '5', '6', '7', '8', '9'][d]
  }

  /** Decimal rendering of a natural number, most significant digit first. */
  function NatToString(n: nat): (r: string)
    ensures |r| >= 1
    ensures forall i :: 0 <= i < |r| ==> '0' <= r[i] <= '9'
    decreases n
  {
    if n < 10 then [DigitChar(n)] else NatToString(n / 10) + [DigitChar(n % 10)]
  }

  /** `String(n)` for an integral number. */
  function IntToString(n: int): string {
    if n < 0 then "-" + NatToString(-n) else NatToString(n)
  }

  /** `String(v)`. */
  function ToStr(v: JsValue): string {
    match v
    case Undefined => "undefined"
    case Null => "null"
    case Str(s) => s
    case Num(n) => IntToString(n)
    case Bool(b) => if b then "true" else "false"
  }

  /** `String(v || fallback)`: the falsy values all give the fallback. */
  function StrOr(v: JsValue, fallback: string): (r: string)
    ensures Truthy(v) ==> r == ToStr(v)
    ensures !Truthy(v) ==> r == fallback
  {
    if Truthy(v) then ToStr(v) else fallback
  }

  /** `String(v ?? "")`: only `null` and `undefined` give the empty string. */
  function StrNullish(v: JsValue): (r: string)
    ensures (v.Undefined? || v.Null?) ==> r == []
    ensures v.Str? ==> r == v.s
  {
    if v.Undefined? || v.Null? then "" else ToStr(v)
  }

  /** `a || b` on two values: the first when it is truthy, else the second. */
  function Or(a: JsValue, b: JsValue): (r: JsValue)
    ensures Truthy(a) ==> r == a
    ensures !Truthy(a) ==> r == b
  {
    if Truthy(a) then a else b
  }
}
