/**
 The resizer derives one side of the target from the other with
 `Math.round(x / ratio)` or `Math.round(x * ratio)`, where the ratio is the
 original width over the original height. With the ratio held as the exact
 rational w0 / h0 every such quotient has the form a / b with a >= 0 and
 b > 0, and `Math.round` of it is computed here with integer division.

 The program works on IEEE doubles: `w0 / h0` is already rounded, and so is
 the quotient. A quotient exactly half-way in rationals may land on either
 side of the half, and from about 10^12 on the rounding error of the double
 can reach the distance to the nearest half even when there is no tie; in
 those cases the browser's result can differ by one from the exact one
 modelled here, and above 2^53 by more.
 */
module Rounding {

  type PosInt = n: int | n > 0 witness 1

  /** ECMAScript's `Math.round(x)` is the integer r with r - 1/2 <= x < r + 1/2
      (halves go up). For x = a / b this reads, multiplied out by 2b: */
  ghost predicate IsMathRound(a: int, b: PosInt, r: int) {
    2 * b * r - b <= 2 * a < 2 * b * r + b
  }

  /** `Math.round(a / b)` on exact rationals. */
  function RoundDiv(a: nat, b: PosInt): (r: nat)
    ensures 2 * a - b < 2 * b * r <= 2 * a + b
  {
    var q := (2 * a + b) / (2 * b);
    assert 2 * b * q <= 2 * a + b < 2 * b * q + 2 * b;
    q
  }

  /** Two integers that both round a / b are equal. */
  lemma MathRoundUnique(a: int, b: PosInt, r: int, r': int)
    requires IsMathRound(a, b, r) && IsMathRound(a, b, r')
    ensures r == r'
  {
    MulStrict(2 * b, r, r' + 1);
    MulStrict(2 * b, r', r + 1);
  }

  /** Multiplying by a positive factor keeps strict order, both ways. */
  lemma MulStrict(k: PosInt, x: int, y: int)
    ensures x < y <==> k * x < k * y
  {
  }

  /** RoundDiv is exactly `Math.round`: it rounds a / b, and nothing else does. */
  lemma RoundDivIsMathRound(a: nat, b: PosInt, r: int)
    ensures IsMathRound(a, b, r) <==> r == RoundDiv(a, b)
  {
    assert IsMathRound(a, b, RoundDiv(a, b));
    if IsMathRound(a, b, r) {
      MathRoundUnique(a, b, r, RoundDiv(a, b));
    }
  }

  /** An exact quotient is returned unchanged: `Math.round(k * b / b) == k`. */
  lemma RoundDivExact(k: nat, b: PosInt)
    ensures RoundDiv(k * b, b) == k
  {
    RoundDivIsMathRound(k * b, b, k);
  }

  /** A quotient that does not exceed the integer m rounds to at most m. */
  lemma RoundDivAtMost(a: nat, b: PosInt, m: nat)
    requires a <= m * b
    ensures RoundDiv(a, b) <= m
  {
    var r := RoundDiv(a, b);
    assert 2 * b * (m + 1) == 2 * (m * b) + 2 * b;
    MulStrict(2 * b, r, m + 1);
  }
}
