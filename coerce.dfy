/** Python's `int(x)` and `float(x)` applied to JSON values; `None` where Python raises. */
module Coerce {
  import opened Wrappers
  import opened Json
  import Text

  /** `int(x)` for a float: truncation toward zero. */
  function Truncate(x: real): (n: int)
    ensures 0.0 <= x ==> n as real <= x < n as real + 1.0
    ensures x < 0.0 ==> n as real - 1.0 < x <= n as real
  {
    if x >= 0.0 then x.Floor else -((-x).Floor)
  }

  /** `int(v)`: booleans and numbers convert, strings are parsed, `None`, lists and dicts raise `TypeError`. */
  function ToInt(v: Value): Option<int> {
    match v
    case Bool(b) => Some(if b then 1 else 0)
    case Int(i) => Some(i)
    case Float(r) => Some(Truncate(r))
    case Str(s) => Text.ParseInt(s)
    case _ => None
  }

  /** `float(v)`: booleans and numbers convert, strings are parsed, `None`, lists and dicts raise `TypeError`. */
  function ToFloat(v: Value): Option<real> {
    match v
    case Bool(b) => Some(if b then 1.0 else 0.0)
    case Int(i) => Some(i as real)
    case Float(r) => Some(r)
    case Str(s) => Text.ParseReal(s)
    case _ => None
  }

  /** Whatever `int()` accepts (other than a float, which it truncates) `float()` accepts with the same value. */
  lemma ToFloatAgreesWithToInt(v: Value)
    requires ToInt(v).Some? && !v.Float?
    ensures ToFloat(v) == Some(ToInt(v).value as real)
  {
    if v.Str? {
      Text.ParseRealExtendsParseInt(v.s);
    }
  }
}
