/**
 * JavaScript value semantics the rest of the model depends on: strings as
 * UTF-16 code units, `null`/`undefined` as an option, truthiness of an
 * optional string, the 32-bit integer conversion used by the bitwise
 * operators, and the truncating remainder operator `%`.
 */
module JsValues {

  /** One UTF-16 code unit, the element type of a JavaScript string. */
  type CodeUnit = c: int | 0 <= c < 0x1_0000

  /** A JavaScript string: `length` and `charCodeAt` see code units. */
  type JsString = seq<CodeUnit>

  /** A value that may be `null` or `undefined`. */
  datatype Option<+T> = None | Some(value: T)

  /**
   * Converts a Dafny string literal to code units. Only used on ASCII
   * literals, where every character is one code unit.
   */
  function Lit(s: string): (r: JsString)
    ensures |r| == |s|
  {
    seq(|s|, i requires 0 <= i < |s| => (s[i] as int) % 0x1_0000)
  }

  /**
   * An optional string is truthy when it is present and non-empty:
   * `null`, `undefined` and `""` are all falsy.
   */
  predicate Truthy(s: Option<JsString>)
  {
    s.Some? && |s.value| > 0
  }

  const TwoTo31: int := 0x8000_0000
  const TwoTo32: int := 0x1_0000_0000

  /** Largest integer every smaller magnitude of which a double holds exactly. */
  const MaxSafeInteger: int := 0x1F_FFFF_FFFF_FFFF

  /** The integers a JavaScript number represents without rounding. */
  predicate IsSafeInteger(x: int)
  {
    -MaxSafeInteger <= x <= MaxSafeInteger
  }

  /** Two integers agree in their low 32 bits. */
  predicate Congruent32(a: int, b: int)
  {
    (a - b) % TwoTo32 == 0
  }

  /** A value of the signed 32-bit range. */
  predicate IsInt32(x: int)
  {
    -TwoTo31 <= x < TwoTo31
  }

  /**
   * The abstract operation ToInt32 restricted to integral numbers: the
   * unique signed 32-bit value congruent to `x` modulo 2^32.
   */
  function ToInt32(x: int): (r: int)
    ensures IsInt32(r)
    ensures Congruent32(x, r)
    ensures IsInt32(x) ==> r == x
  {
    var m := x % TwoTo32;
    if m >= TwoTo31 then m - TwoTo32 else m
  }

  /** Congruence modulo 2^32 survives multiplication by any integer. */
  lemma ScaleCongruent(a: int, b: int, k: int)
    requires Congruent32(a, b)
    ensures Congruent32(a * k, b * k)
  {
    var q := (a - b) / TwoTo32;
    assert a - b == TwoTo32 * q;
    assert a * k - b * k == (a - b) * k;
    assert a * k - b * k == TwoTo32 * (q * k);
  }

  /** Congruence modulo 2^32 is transitive. */
  lemma TransCongruent(a: int, b: int, c: int)
    requires Congruent32(a, b) && Congruent32(b, c)
    ensures Congruent32(a, c)
  {
    var p := (a - b) / TwoTo32;
    var q := (b - c) / TwoTo32;
    assert a - c == TwoTo32 * (p + q);
  }

  /** Congruence modulo 2^32 survives adding the same integer to both sides. */
  lemma ShiftCongruent(a: int, b: int, k: int)
    requires Congruent32(a, b)
    ensures Congruent32(a + k, b + k)
  {
    assert (a + k) - (b + k) == a - b;
  }

  /** Shifting a congruent value left by five bits keeps it congruent. */
  lemma ShiftCongruentTimes32(x: int, t: int)
    requires Congruent32(x, t)
    ensures Congruent32(ToInt32(32 * t), 32 * x)
  {
    ScaleCongruent(x, t, 32);
    assert 32 * t - 32 * x == -(x * 32 - t * 32);
    assert Congruent32(32 * t, 32 * x);
    TransCongruent(ToInt32(32 * t), 32 * t, 32 * x);
  }

  /**
   * `x << 5` on an integral number: the left operand is converted with
   * ToInt32, shifted, and the result is again a signed 32-bit value.
   */
  function ShiftLeft5(x: int): (r: int)
    ensures IsInt32(r)
    ensures IsInt32(32 * x) ==> r == 32 * x
  {
    ToInt32(32 * ToInt32(x))
  }

  /** `x << 5` agrees with 32 * x in the low 32 bits. */
  lemma ShiftLeft5Congruent(x: int)
    ensures Congruent32(ShiftLeft5(x), 32 * x)
  {
    ShiftCongruentTimes32(x, ToInt32(x));
  }

  /** A product with a positive factor leaves remainder zero modulo that factor. */
  lemma MultipleHasZeroRemainder(d: int, q: int)
    requires d > 0
    ensures (d * q) % d == 0
  {
    var x := d * q;
    var k := q - x / d;
    assert d * k == x % d;
    assert k >= 1 ==> d * k >= d * 1;
    assert k <= -1 ==> d * k <= d * -1;
  }

  /**
   * The `%` operator on integral numbers with a positive divisor: a
   * truncating remainder whose sign follows the dividend (unlike Dafny's
   * Euclidean `%`).
   */
  function JsRem(a: int, d: int): (r: int)
    requires d > 0
    ensures -d < r < d
    ensures r == 0 || (r < 0 <==> a < 0)
    ensures (a - r) % d == 0
  {
    if a >= 0 then
      MultipleHasZeroRemainder(d, a / d);
      a % d
    else
      assert a + (-a) % d == d * -((-a) / d);
      MultipleHasZeroRemainder(d, -((-a) / d));
      -((-a) % d)
  }
}
