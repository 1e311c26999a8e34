/** Values read from an untyped JSON request body (`readBody`), with JavaScript's
    truthiness and `Number(...)` conversion as the handlers apply them. */
module Body {
  import opened Common
  import opened Strings

  /** A body field: absent, `null`, a boolean, an integral number, a number with a
      fractional part (such as 1.5), or a string. */
  datatype BodyValue = Missing | Null | Bool(b: bool) | Num(n: int) | Fraction | Str(s: string)

  /** The range of a Postgres `integer` (int4) column, which every id column is. */
  const Int4Min := -0x8000_0000
  const Int4Max := 0x7FFF_FFFF

  predicate IsInt4(n: int) {
    Int4Min <= n <= Int4Max
  }

  /** `!!v` in JavaScript. */
  predicate Truthy(v: BodyValue) {
    match v
    case Missing => false
    case Null => false
    case Bool(b) => b
    case Num(n) => n != 0
    case Fraction => true
    case Str(s) => s != ""
  }

  /** `Number(v)` when that is an integer, `None` when it is `NaN` or has a
      fractional part. Strings are read as plain decimal numerals (or "" as 0). */
  function ToNumber(v: BodyValue): Option<int> {
    match v
    case Missing => None
    case Null => Some(0)
    case Bool(b) => Some(if b then 1 else 0)
    case Num(n) => Some(n)
    case Fraction => None
    case Str(s) => if AllDigits(s) then Some(ParseDigits(s)) else None
  }

  /** The id the database reads from a body value bound directly as a query
      parameter, with no `Number(...)` in between: an integral number or decimal
      string within the int4 range. A boolean is sent as the text "true" or
      "false", a fraction as "1.5", and neither, nor an out-of-range number, is an
      integer the column accepts. */
  function ParamId(v: BodyValue): (r: Option<int>)
    ensures r.Some? ==> (v.Num? || v.Str?) && ToNumber(v) == r && IsInt4(r.value)
    ensures (v.Num? || v.Str?) && ToNumber(v).Some? && IsInt4(ToNumber(v).value) ==> r == ToNumber(v)
  {
    match v
    case Num(n) => if IsInt4(n) then Some(n) else None
    case Str(s) => if AllDigits(s) && IsInt4(ParseDigits(s)) then Some(ParseDigits(s)) else None
    case _ => None
  }

  /** A numeric id sent as a string converts to the same id as when sent as a number. */
  lemma NumberOfNumeral(n: nat)
    ensures Truthy(Str(NatToString(n)))
    ensures ToNumber(Str(NatToString(n))) == ToNumber(Num(n)) == Some(n)
  {
    ParseNatToString(n);
  }
}
