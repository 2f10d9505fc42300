/**
 * The typing metrics computed by the live keystroke handler
 * (calculateProgress, calculateWPM, calculateAccuracy).
 * JavaScript computes them in floating point; here they are exact:
 * `real` for the percentage and integers for the two rounded figures.
 */
module Metrics {

  /** `r` is what `Math.round(x)` gives: the nearest integer, halves rounded up. */
  ghost predicate RoundsTo(r: int, x: real)
  {
    r as real - 0.5 <= x < r as real + 0.5
  }

  /** The result of `Math.round` is determined by its argument. */
  lemma RoundsToUnique(r1: int, r2: int, x: real)
    requires RoundsTo(r1, x) && RoundsTo(r2, x)
    ensures r1 == r2
  {
  }

  /** `Math.round(n / d)` in integer arithmetic: floor((2n + d) / 2d) once d is made positive. */
  function Round(n: int, d: int): (r: int)
    requires d != 0
    ensures RoundsTo(r, n as real / d as real)
    decreases if d > 0 then 0 else 1
  {
    if d > 0 then
      var q := (2 * n + d) / (2 * d);
      RoundDivision(n, d, q);
      q
    else
      assert (-n) as real / (-d) as real == n as real / d as real;
      Round(-n, -d)
  }

  /** The quotient of the integer formula sits within one half of n / d. */
  lemma RoundDivision(n: int, d: int, q: int)
    requires d > 0 && q == (2 * n + d) / (2 * d)
    ensures RoundsTo(q, n as real / d as real)
  {
    var m := (2 * n + d) % (2 * d);
    assert 2 * n + d == 2 * d * q + m && 0 <= m < 2 * d;
    assert d * (2 * q - 1) <= 2 * n < d * (2 * q + 1);
    var x := n as real / d as real;
    assert x * d as real == n as real;
    assert (2 * q - 1) as real * d as real <= 2.0 * x * d as real;
    assert 2.0 * x * d as real < (2 * q + 1) as real * d as real;
  }

  /** A percentage as JavaScript produces it: a number, or NaN / Infinity (sent as null in JSON). */
  datatype Percent = Percent(value: real) | NonFinite

  /** calculateProgress: `(position / totalLength) * 100`; a zero length divides by zero. */
  function CalculateProgress(position: int, totalLength: nat): (r: Percent)
    ensures r.NonFinite? <==> totalLength == 0
    ensures r.Percent? ==> r.value * totalLength as real == 100.0 * position as real
  {
    if totalLength == 0 then NonFinite
    else Percent((position as real / totalLength as real) * 100.0)
  }

  /** Progress is a true percentage while the position stays inside the sentence,
      and reaches 100 exactly when the position reaches the sentence's end. */
  lemma ProgressBounds(position: int, totalLength: nat)
    requires totalLength > 0
    ensures var r := CalculateProgress(position, totalLength);
      && (0 <= position <= totalLength ==> 0.0 <= r.value <= 100.0)
      && (r.value >= 100.0 <==> position >= totalLength)
  {
    var r := CalculateProgress(position, totalLength);
    var len := totalLength as real;
    assert r.value * len == 100.0 * position as real;
    if r.value >= 100.0 {
      assert r.value * len >= 100.0 * len;
    }
    if position >= totalLength {
      assert r.value * len >= 100.0 * len;
    }
  }

  /** calculateWPM: 0 for a zero timestamp, else `Math.round((position / 5) / (timestamp / 60000))`,
      five characters counting as one word. */
  function CalculateWpm(timestamp: int, position: int): (r: int)
    ensures timestamp == 0 ==> r == 0
    ensures timestamp != 0 ==> RoundsTo(r, (position as real / 5.0) / (timestamp as real / 60000.0))
  {
    if timestamp == 0 then 0
    else
      assert (position as real / 5.0) / (timestamp as real / 60000.0)
          == (12000 * position) as real / timestamp as real;
      Round(12000 * position, timestamp)
  }

  /** calculateAccuracy: 100 when nothing was typed, else
      `Math.round(((totalTyped - errors) / totalTyped) * 100)`, with no clamping. */
  function CalculateAccuracy(errors: int, totalTyped: int): (r: int)
    ensures totalTyped == 0 ==> r == 100
    ensures totalTyped != 0 ==> RoundsTo(r, ((totalTyped - errors) as real / totalTyped as real) * 100.0)
  {
    if totalTyped == 0 then 100
    else
      assert ((totalTyped - errors) as real / totalTyped as real) * 100.0
          == (100 * (totalTyped - errors)) as real / totalTyped as real;
      Round(100 * (totalTyped - errors), totalTyped)
  }

  /** Non-negative words per minute for a forward position and a positive elapsed time. */
  lemma WpmNonNegative(timestamp: int, position: int)
    requires timestamp > 0 && position >= 0
    ensures CalculateWpm(timestamp, position) >= 0
  {
    var x := (position as real / 5.0) / (timestamp as real / 60000.0);
    assert x == (12000 * position) as real / timestamp as real;
    assert x * timestamp as real == (12000 * position) as real;
  }

  /** At a fixed elapsed time, typing further never lowers the reported words per minute. */
  lemma WpmMonotone(timestamp: int, p1: int, p2: int)
    requires timestamp > 0 && p1 <= p2
    ensures CalculateWpm(timestamp, p1) <= CalculateWpm(timestamp, p2)
  {
    var t := timestamp as real;
    var x1 := (p1 as real / 5.0) / (t / 60000.0);
    var x2 := (p2 as real / 5.0) / (t / 60000.0);
    assert x1 * t == 12000.0 * p1 as real;
    assert x2 * t == 12000.0 * p2 as real;
    assert x1 <= x2;
  }

  /** With no more errors than keystrokes, accuracy is a percentage in [0, 100]. */
  lemma AccuracyInRange(errors: int, totalTyped: int)
    requires 0 <= errors <= totalTyped
    ensures 0 <= CalculateAccuracy(errors, totalTyped) <= 100
  {
    if totalTyped != 0 {
      var t := totalTyped as real;
      var x := ((totalTyped - errors) as real / t) * 100.0;
      assert x * t == 100.0 * (totalTyped - errors) as real;
      assert 0.0 <= x <= 100.0;
    }
  }

  /** Accuracy is not clamped: once the errors exceed the keystrokes by more than
      half a percent of them, the reported accuracy is negative. */
  lemma AccuracyNotClamped(errors: int, totalTyped: int)
    requires totalTyped > 0 && 200 * (errors - totalTyped) > totalTyped
    ensures CalculateAccuracy(errors, totalTyped) < 0
  {
    var t := totalTyped as real;
    var c := (totalTyped - errors) as real;
    assert (c / t) * 100.0 == (100.0 * c) / t;
    assert 100.0 * c < -0.5 * t;
    QuotientBelow(100.0 * c, t, -0.5);
  }

  /** a / t < b follows from a < b * t when t is positive. */
  lemma QuotientBelow(a: real, t: real, b: real)
    requires t > 0.0 && a < b * t
    ensures a / t < b
  {
    var q := a / t;
    assert q * t == a;
    assert (b - q) * t == b * t - a;
    assert (b - q) * t > 0.0;
  }
}
