/** Python's real-to-integer conversions, on exact reals. */
module PyNum {

  /** `int(x)` on a float: truncation toward zero (so every x in (-1, 1) gives 0). */
  function Trunc(x: real): (k: int)
    ensures x >= 0.0 ==> k as real <= x < k as real + 1.0
    ensures x < 0.0 ==> k as real - 1.0 < x <= k as real
  {
    if x >= 0.0 then x.Floor else -((-x).Floor)
  }

  /** `math.floor` / `np.floor`. */
  function Floor(x: real): (k: int)
    ensures k as real <= x < k as real + 1.0
  {
    x.Floor
  }

  /** `math.ceil` / `np.ceil`. */
  function Ceil(x: real): (k: int)
    ensures x <= k as real < x + 1.0
  {
    -((-x).Floor)
  }

  /** Python 3's `round(x)`: the nearest integer, ties to the even neighbour. */
  function RoundHalfEven(x: real): (k: int)
    ensures -0.5 <= x - k as real <= 0.5
  {
    var f := x.Floor;
    var frac := x - f as real;
    if frac < 0.5 then f
    else if frac > 0.5 then f + 1
    else if f % 2 == 0 then f
    else f + 1
  }

  /** A value exactly halfway between two integers rounds to the even one. */
  lemma RoundHalfEvenTies(x: real)
    ensures x - RoundHalfEven(x) as real == 0.5 || x - RoundHalfEven(x) as real == -0.5 ==> RoundHalfEven(x) % 2 == 0
  {
  }

  /** Nearest, with ties to even, pins the result down: RoundHalfEven is the only such integer. */
  lemma RoundHalfEvenUnique(x: real, k: int)
    requires -0.5 <= x - k as real <= 0.5
    requires x - k as real == 0.5 || x - k as real == -0.5 ==> k % 2 == 0
    ensures k == RoundHalfEven(x)
  {
    RoundHalfEvenTies(x);
  }

  function Max(a: int, b: int): (m: int)
    ensures m >= a && m >= b && (m == a || m == b)
  {
    if a >= b then a else b
  }

  /** `max` on floats (`max(2., size/200.)`); Max is the same on integers (`max(rows, cols)`). */
  function MaxReal(a: real, b: real): (m: real)
    ensures m >= a && m >= b && (m == a || m == b)
  {
    if a >= b then a else b
  }

  /** On integer arguments the two maxima agree. */
  lemma MaxRealIsMax(a: int, b: int)
    ensures MaxReal(a as real, b as real) == Max(a, b) as real
  {
  }

  function MinInt(a: int, b: int): (m: int)
    ensures m <= a && m <= b && (m == a || m == b)
  {
    if a <= b then a else b
  }
}
