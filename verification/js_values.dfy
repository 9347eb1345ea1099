/**
 * The JavaScript value semantics the application leans on: a JSON field
 * that may be missing, null or a string; truthiness as used by `||` and
 * `!`; template-literal interpolation; and Number arithmetic on integral
 * values (`Math.floor` of a quotient, and the `%` operator, whose result
 * takes the sign of the dividend).
 */
module JsValues {
  import opened Strings

  /** A JSON field read off a record: absent (`undefined`), `null`, or a string. */
  datatype Field = Undefined | Null | Str(s: string)

  /** JavaScript truthiness: `undefined`, `null` and `""` are falsy. */
  predicate Truthy(f: Field)
  {
    f.Str? && f.s != ""
  }

  /** `f || fallback` for a string fallback. */
  function OrElse(f: Field, fallback: string): (r: string)
    ensures Truthy(f) ==> r == f.s
    ensures !Truthy(f) ==> r == fallback
  {
    if Truthy(f) then f.s else fallback
  }

  /** How `${f}` renders a field inside a template literal. */
  function Interpolate(f: Field): (r: string)
    ensures f.Str? ==> r == f.s
    ensures f.Undefined? ==> r == "undefined"
    ensures f.Null? ==> r == "null"
  {
    match f
    case Undefined => "undefined"
    case Null => "null"
    case Str(s) => s
  }

  /** `Math.floor(a / b)` for a positive integral divisor. */
  function FloorDiv(a: int, b: int): (q: int)
    requires b > 0
    ensures q * b <= a < (q + 1) * b
  {
    a / b
  }

  /** Euclidean division of a non-negative dividend brackets it between two multiples of the divisor. */
  lemma DivBounds(n: int, b: int)
    requires n >= 0 && b > 0
    ensures (n / b) * b <= n < (n / b) * b + b
  {
    assert n == (n / b) * b + n % b;
  }

  /** Quotient of division truncated toward zero (`Math.trunc(a / b)`). */
  function TruncDiv(a: int, b: int): (q: int)
    requires b > 0
    ensures a >= 0 ==> q >= 0 && q * b <= a < q * b + b
    ensures a < 0 ==> q <= 0 && q * b - b < a <= q * b
  {
    if a >= 0 then
      DivBounds(a, b);
      a / b
    else
      var p := (-a) / b;
      DivBounds(-a, b);
      assert (-p) * b == -(p * b);
      -p
  }

  /** JavaScript's `a % b` for a positive divisor: the remainder of truncating division. */
  function JsRem(a: int, b: int): (r: int)
    requires b > 0
    ensures -b < r < b
    ensures a >= 0 ==> r >= 0
    ensures a < 0 ==> r <= 0
    ensures a == TruncDiv(a, b) * b + r
  {
    if a >= 0 then a % b
    else
      var n := -a;
      assert n == (n / b) * b + n % b;
      -(n % b)
  }
}
