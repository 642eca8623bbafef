/** Order sizes: flooring to the broker's increment and printing to ten decimals. */
module Quantities {

  /** Python's `int()` of a real: toward zero. */
  function Trunc(x: real): (n: int)
    ensures x >= 0.0 ==> 0.0 <= n as real <= x < n as real + 1.0
    ensures x <= 0.0 ==> n as real - 1.0 < x <= n as real <= 0.0
  {
    if x >= 0.0 then x.Floor else -((-x).Floor)
  }

  /** The nearest ten-decimal number, ties to an even last digit. */
  function RoundTen(x: real): (r: real)
    ensures x - 0.00000000005 <= r <= x + 0.00000000005
  {
    var scaled := x * 10000000000.0;
    var down := scaled.Floor;
    var part := scaled - down as real;
    var n := if part < 0.5 || (part == 0.5 && down % 2 == 0) then down else down + 1;
    n as real / 10000000000.0
  }

  /** `n` is a number of ten-decimal units nearest to `x`, and an even one when two are. */
  ghost predicate NearestUnits(x: real, n: int) {
    var away := x * 10000000000.0 - n as real;
    -0.5 <= away <= 0.5 && (away == 0.5 || away == -0.5 ==> n % 2 == 0)
  }

  /** Rounding gives the nearest ten-decimal number, and of two the one with the even last digit. */
  lemma {:induction false} RoundTenIsNearest(x: real) returns (n: int)
    ensures RoundTen(x) * 10000000000.0 == n as real && NearestUnits(x, n)
    ensures forall other: int :: NearestUnits(x, other) ==> other == n
  {
    var scaled := x * 10000000000.0;
    var down := scaled.Floor;
    var part := scaled - down as real;
    n := if part < 0.5 || (part == 0.5 && down % 2 == 0) then down else down + 1;
  }

  /** How many increments fit in `value`, with a hair of slack for a value just short of a whole one. */
  function Increments(value: real, increment: real): int
    requires increment != 0.0
  {
    Trunc(value / increment + 0.000000001)
  }

  function Whole(n: int, increment: real): real {
    n as real * increment
  }

  function FloorToIncrement(value: real, increment: real): real
    requires increment != 0.0
  {
    RoundTen(Whole(Increments(value, increment), increment))
  }

  lemma {:induction false} FloorBounds(ratio: real, k: int)
    requires 0.0 <= ratio && k == Trunc(ratio + 0.000000001)
    ensures ratio - 1.0 < k as real <= ratio + 0.000000001 && 0 <= k
  {
  }

  lemma {:induction false} PositiveProduct(x: real, y: real)
    requires 0.0 <= x && 0.0 < y
    ensures 0.0 <= x * y && (0.0 < x ==> 0.0 < x * y)
  {
  }

  lemma {:induction false} Distributes(a: real, b: real, r: real)
    ensures (a - b) * r == a * r - b * r
  {
  }

  lemma {:induction false} ScaledBounds(value: real, increment: real, ratio: real, k: real, slack: real)
    requires 0.0 < increment && ratio * increment == value
    requires ratio - 1.0 < k <= ratio + slack
    ensures value - increment < k * increment <= value + slack * increment
  {
    PositiveProduct(k - (ratio - 1.0), increment);
    Distributes(k, ratio - 1.0, increment);
    Distributes(ratio, 1.0, increment);
    PositiveProduct(ratio + slack - k, increment);
    Distributes(ratio + slack, k, increment);
    Distributes(ratio, -slack, increment);
    Distributes(0.0, slack, increment);
    assert ratio - -slack == ratio + slack && 0.0 - slack == -slack;
  }

  lemma {:induction false} RatioIsNonNegative(value: real, increment: real)
    requires 0.0 <= value && 0.0 < increment
    ensures 0.0 <= value / increment && value / increment * increment == value
  {
  }

  /** Before rounding, a multiple of the increment in (value - increment, value + 1e-9 * increment]. */
  lemma {:induction false} FlooredWithinIncrement(value: real, increment: real)
    requires 0.0 <= value && 0.0 < increment
    ensures
      var floored := Increments(value, increment) as real * increment;
      value - increment < floored <= value + 0.000000001 * increment
  {
    var ratio := value / increment;
    RatioIsNonNegative(value, increment);
    FloorBounds(ratio, Increments(value, increment));
    ScaledBounds(value, increment, ratio, Increments(value, increment) as real, 0.000000001);
  }

  lemma {:induction false} ScaledOrder(x: real, y: real, increment: real, scaledX: real, scaledY: real)
    requires 0.0 < increment && scaledX == x * increment && scaledY == y * increment
    ensures x <= y <==> scaledX <= scaledY
  {
    Distributes(y, x, increment);
    if x <= y {
      PositiveProduct(y - x, increment);
    } else {
      PositiveProduct(x - y, increment);
      Distributes(x, y, increment);
    }
  }

  lemma {:induction false} RatioAndHair(value: real, increment: real, hair: real)
    requires 0.0 <= value && 0.0 < increment
    ensures (value / increment + hair) * increment == value + hair * increment
  {
    RatioIsNonNegative(value, increment);
    Distributes(value / increment, -hair, increment);
    Distributes(0.0, hair, increment);
    assert value / increment - -hair == value / increment + hair && 0.0 - hair == -hair;
  }

  lemma {:induction false} TruncExactly(x: real, k: int)
    requires 0.0 <= x
    ensures Trunc(x) == k <==> k as real <= x < k as real + 1.0
  {
  }

  lemma {:induction false} ScaledBetween(low: real, high: real, x: real, scaled: real, increment: real)
    requires 0.0 < increment && scaled == x * increment
    ensures low <= x < high <==> low * increment <= scaled < high * increment
  {
    ScaledOrder(low, x, increment, low * increment, scaled);
    ScaledOrder(high, x, increment, high * increment, scaled);
  }

  /** So many increments fit as do in the value and a billionth of an increment: not one more, not one less. */
  lemma {:induction false} IncrementsExactly(value: real, increment: real, k: int)
    requires 0.0 <= value && 0.0 < increment
    ensures Increments(value, increment) == k <==>
      (k as real) * increment <= value + 0.000000001 * increment < (k as real + 1.0) * increment
  {
    var x := value / increment + 0.000000001;
    RatioIsNonNegative(value, increment);
    RatioAndHair(value, increment, 0.000000001);
    TruncExactly(x, k);
    ScaledBetween(k as real, k as real + 1.0, x, value + 0.000000001 * increment, increment);
  }

  lemma {:induction false} FloorsToIncrements(value: real, increment: real) returns (k: int, whole: real)
    requires 0.0 <= value && 0.0 < increment
    ensures whole == Whole(k, increment) && FloorToIncrement(value, increment) == RoundTen(whole)
    ensures whole <= value + 0.000000001 * increment < whole + increment
  {
    k := Increments(value, increment);
    whole := Whole(k, increment);
    IncrementsExactly(value, increment, k);
    Distributes(k as real, -1.0, increment);
  }

  /** What flooring and one rounding leave of a quantity. */
  lemma {:induction false} FloorToIncrementBounds(value: real, increment: real)
    requires 0.0 <= value && 0.0 < increment
    ensures
      var qty := FloorToIncrement(value, increment);
      value - increment - 0.00000000005 < qty <= value + 0.000000001 * increment + 0.00000000005
  {
    FlooredWithinIncrement(value, increment);
    RoundTenWithin(Whole(Increments(value, increment), increment), value - increment, value + 0.000000001 * increment);
  }

  lemma {:induction false} RoundTenWithin(x: real, lower: real, upper: real)
    requires lower < x <= upper
    ensures lower - 0.00000000005 < RoundTen(x) <= upper + 0.00000000005
  {
  }

  lemma {:induction false} RatioIsNonPositive(value: real, increment: real)
    requires value <= 0.0 < increment
    ensures value / increment <= 0.0
  {
    var ratio := value / increment;
    assert ratio * increment == value;
    if ratio > 0.0 {
      PositiveProduct(ratio, increment);
    }
  }

  lemma {:induction false} TruncIsNonPositive(x: real)
    requires x < 1.0
    ensures Trunc(x) <= 0
  {
  }

  lemma {:induction false} NonPositiveProduct(x: real, y: real)
    requires x <= 0.0 < y
    ensures x * y <= 0.0
  {
    PositiveProduct(-x, y);
    assert -x * y == -(x * y);
  }

  lemma {:induction false} RoundTenIsNonPositive(x: real)
    requires x <= 0.0
    ensures RoundTen(x) <= 0.0
  {
  }

  lemma {:induction false} NoIncrements(value: real, increment: real)
    requires value <= 0.0 < increment
    ensures Increments(value, increment) <= 0
  {
    RatioIsNonPositive(value, increment);
    TruncIsNonPositive(value / increment + 0.000000001);
  }

  lemma {:induction false} NoIncrementsRounded(n: int, increment: real)
    requires n <= 0 && 0.0 < increment
    ensures RoundTen(Whole(n, increment)) <= 0.0
  {
    NonPositiveProduct(n as real, increment);
    RoundTenIsNonPositive(Whole(n, increment));
  }

  /** Of nothing, or less, no positive number of increments is left. */
  lemma {:induction false} NothingToFloor(value: real, increment: real)
    requires value <= 0.0 < increment
    ensures FloorToIncrement(value, increment) <= 0.0
  {
    NoIncrements(value, increment);
    NoIncrementsRounded(Increments(value, increment), increment);
  }
}
