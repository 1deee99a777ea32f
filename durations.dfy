/** The integer arithmetic of the statistics commands: the average of a
    total number of seconds over a count, rounded to the nearest second the
    way f64::round does (halves away from zero), cast to i32 (which
    saturates), then split into hours and days with i32 division (which
    truncates toward zero). The average is taken exactly; the precision an
    f64 loses on totals beyond 2^53 seconds is not modelled. */
module Durations {
  const SecondsPerHour: int := 3600
  const HoursPerDay: int := 24
  const I32Min: int := -0x8000_0000
  const I32Max: int := 0x7fff_ffff

  /** n / d rounded to the nearest integer, halves away from zero. */
  function RoundHalfAway(n: int, d: int): int
    requires d > 0
  {
    if n >= 0 then (2 * n + d) / (2 * d) else -((2 * -n + d) / (2 * d))
  }

  /** RoundHalfAway is within one half of n / d, and a half goes away from
      zero; these bounds leave exactly one candidate. */
  lemma RoundHalfAwayNearest(n: int, d: int)
    requires d > 0
    ensures var r := RoundHalfAway(n, d);
      && (n >= 0 ==> d * (2 * r - 1) <= 2 * n < d * (2 * r + 1))
      && (n < 0 ==> d * (2 * r - 1) < 2 * n <= d * (2 * r + 1))
  {
    if n >= 0 {
      DivBounds(2 * n + d, 2 * d);
    } else {
      DivBounds(2 * -n + d, 2 * d);
    }
  }

  lemma DivBounds(a: int, b: int)
    requires b > 0
    ensures (a / b) * b <= a < (a / b) * b + b
  {
  }

  /** `as i32` from a float: out-of-range values saturate. */
  function SaturateI32(x: int): int
  {
    if x < I32Min then I32Min else if x > I32Max then I32Max else x
  }

  /** The cast lands in the i32 range, keeps every value already in it, and
      keeps the order of any two values. */
  lemma SaturateI32Clamps(x: int, y: int)
    ensures I32Min <= SaturateI32(x) <= I32Max
    ensures I32Min <= x <= I32Max ==> SaturateI32(x) == x
    ensures x <= y ==> SaturateI32(x) <= SaturateI32(y)
  {
  }

  /** Integer division that truncates toward zero, as Rust's `/` on i32. */
  function TruncDiv(a: int, b: int): int
    requires b > 0
  {
    if a >= 0 then a / b else -((-a) / b)
  }

  /** The truncated quotient times the divisor lies between zero and a,
      less than one divisor away from a. */
  lemma TruncDivBounds(a: int, b: int)
    requires b > 0
    ensures var r := TruncDiv(a, b);
      && (a >= 0 ==> 0 <= r && r * b <= a < r * b + b)
      && (a < 0 ==> r <= 0 && r * b - b < a <= r * b)
  {
    var m := if a >= 0 then a else -a;
    var q := m / b;
    DivBounds(m, b);
    assert q * b <= m < q * b + b;
    assert q >= 0 by {
      MulMono(q + 1, 0, b);
    }
    if a < 0 {
      assert TruncDiv(a, b) == -q;
      assert (-q) * b == -(q * b);
    }
  }

  lemma MulMono(x: int, y: int, b: int)
    requires b >= 0
    ensures x <= y ==> x * b <= y * b
  {
    if x <= y {
      assert y * b - x * b == (y - x) * b;
    }
  }

  /** The quotient is the only integer with those bounds. */
  lemma DivUnique(a: int, b: int, q: int)
    requires b > 0 && q * b <= a < q * b + b
    ensures a / b == q
  {
    DivBounds(a, b);
    var p := a / b;
    assert p * b <= a < p * b + b;
    assert (q + 1) * b == q * b + b && (p + 1) * b == p * b + b;
    MulMono(q + 1, p, b);
    MulMono(p + 1, q, b);
  }

  /** Truncating twice, by b then by c, is truncating once by b * c; so
      days computed from hours equal days computed from seconds. */
  lemma {:induction false} TruncDivNested(a: int, b: int, c: int)
    requires b > 0 && c > 0
    ensures TruncDiv(TruncDiv(a, b), c) == TruncDiv(a, b * c)
  {
    var m := if a >= 0 then a else -a;
    var bc := b * c;
    assert bc > 0 by {
      MulMono(1, c, b);
    }
    NestedNonNegative(m, b, c);
    var h := m / b;
    assert h >= 0 by {
      DivBounds(m, b);
      MulMono(h + 1, 0, b);
    }
    if a >= 0 {
      assert TruncDiv(a, b) == h;
      assert TruncDiv(h, c) == h / c;
    } else {
      assert TruncDiv(a, b) == -h;
      TruncDivNegated(h, c);
      TruncDivNegated(m, bc);
    }
  }

  /** Truncation of a non-positive value mirrors that of its negation. */
  lemma TruncDivNegated(h: int, c: int)
    requires h >= 0 && c > 0
    ensures TruncDiv(-h, c) == -(h / c)
  {
    if h == 0 {
      assert TruncDiv(0, c) == 0 / c == 0;
    }
  }

  lemma NestedNonNegative(a: int, b: int, c: int)
    requires a >= 0 && b > 0 && c > 0
    ensures (a / b) / c == a / (b * c)
  {
    var bc := b * c;
    var q := a / bc;
    DivBounds(a, bc);
    var r := a - q * bc;
    assert 0 <= r < bc;
    var s := r / b;
    DivBounds(r, b);
    var t := r - s * b;
    assert 0 <= t < b;
    MulMono(c, s, b);
    assert s < c;
    assert s >= 0 by {
      MulMono(s + 1, 0, b);
    }
    assert a == (q * c + s) * b + t by {
      assert q * bc == (q * c) * b;
      assert (q * c + s) * b == (q * c) * b + s * b;
    }
    DivUnique(a, b, q * c + s);
    DivUnique(q * c + s, c, q);
  }

  /** The average the statistics commands display, in whole seconds. */
  function AverageSeconds(total: int, divisor: int): int
    requires divisor > 0
  {
    SaturateI32(RoundHalfAway(total, divisor))
  }

  datatype Average = Average(hours: int, days: int)

  /** Hours and days as the commands compute them from the seconds. */
  function Split(seconds: int): Average
  {
    var hours := TruncDiv(seconds, SecondsPerHour);
    Average(hours, TruncDiv(hours, HoursPerDay))
  }

  /** Hours are whole hours of the seconds, truncated toward zero, and days
      computed from the hours equal days computed from the seconds. */
  lemma SplitIsTruncation(seconds: int)
    ensures var r := Split(seconds);
      && r.days == TruncDiv(seconds, SecondsPerHour * HoursPerDay)
      && (seconds >= 0 ==> 0 <= r.hours && r.hours * SecondsPerHour <= seconds < (r.hours + 1) * SecondsPerHour)
      && (seconds < 0 ==> r.hours <= 0 && (r.hours - 1) * SecondsPerHour < seconds <= r.hours * SecondsPerHour)
  {
    TruncDivBounds(seconds, SecondsPerHour);
    TruncDivNested(seconds, SecondsPerHour, HoursPerDay);
  }
}
