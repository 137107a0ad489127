/**
 * Timestamps of the model: naive datetimes as whole microseconds, and the
 * integer divisions that stand for the source's float arithmetic on
 * `timedelta.total_seconds()`.
 */
module Time {

  const MicrosPerMilli: int := 1_000
  const MicrosPerSecond: int := 1_000_000
  const MicrosPerMinute: int := 60 * MicrosPerSecond
  const MicrosPerDay: int := 86_400 * MicrosPerSecond

  /** `b * x <= b * y` for a non-negative factor `b`. */
  lemma MulMonotone(b: int, x: int, y: int)
    requires b >= 0 && x <= y
    ensures b * x <= b * y
  {
    assert b * y - b * x == b * (y - x);
  }

  /** Multiplying by a positive factor keeps different numbers different. */
  lemma MulCancel(b: int, x: int, y: int)
    requires b > 0 && x != y
    ensures x * b != y * b
  {
    if x < y {
      MulMonotone(b, x + 1, y);
    } else {
      MulMonotone(b, y + 1, x);
    }
  }

  /** `datetime.replace(second=0, microsecond=0)`: the start of the minute. */
  function TruncToMinute(t: int): (r: int)
    ensures r % MicrosPerMinute == 0
    ensures r <= t < r + MicrosPerMinute
  {
    t - t % MicrosPerMinute
  }

  /** What `strftime("%Y-%m-%d %H:%M:%S")` keeps of a timestamp: whole seconds. */
  function TruncToSecond(t: int): (r: int)
    ensures r % MicrosPerSecond == 0
    ensures r <= t < r + MicrosPerSecond
  {
    t - t % MicrosPerSecond
  }

  /** Truncating to the minute never reverses the order of two timestamps. */
  lemma TruncToMinuteMonotone(a: int, b: int)
    requires a <= b
    ensures TruncToMinute(a) <= TruncToMinute(b)
  {
  }

  /** Shifting a timestamp by whole minutes shifts its truncation by as much. */
  lemma TruncToMinuteShift(t: int, k: int)
    ensures TruncToMinute(t + k * MicrosPerMinute) == TruncToMinute(t) + k * MicrosPerMinute
  {
    var r := TruncToMinute(t) + k * MicrosPerMinute;
    var u := t + k * MicrosPerMinute;
    assert r <= u < r + MicrosPerMinute;
    assert r % MicrosPerMinute == 0 by {
      assert r == MicrosPerMinute * (TruncToMinute(t) / MicrosPerMinute + k);
    }
    TruncUnique(u, r);
  }

  /** The start of a minute is the only minute boundary at or before `t` and less than a minute away. */
  lemma TruncUnique(t: int, r: int)
    requires r % MicrosPerMinute == 0 && r <= t < r + MicrosPerMinute
    ensures TruncToMinute(t) == r
  {
  }

  /** `math.ceil(a / b)` for a positive divisor. */
  function CeilDiv(a: int, b: int): (q: int)
    requires b > 0
    ensures b * (q - 1) < a <= b * q
  {
    -((-a) / b)
  }

  /** `int(a / b)`: division truncated toward zero, for a positive divisor. */
  function TruncDiv(a: int, b: int): (q: int)
    requires b > 0
    ensures a >= 0 ==> q >= 0 && b * q <= a < b * (q + 1)
    ensures a < 0 ==> q <= 0 && b * (q - 1) < a <= b * q
  {
    if a >= 0 then
      DivBounds(a, b);
      a / b
    else
      DivBounds(-a, b);
      -((-a) / b)
  }

  /** Euclidean division of a non-negative number brackets it between two multiples. */
  lemma DivBounds(a: int, b: int)
    requires a >= 0 && b > 0
    ensures a / b >= 0 && b * (a / b) <= a < b * (a / b + 1)
  {
    var q, r := a / b, a % b;
    assert a == b * q + r && 0 <= r < b;
    assert b * (q + 1) == b * q + b;
    if q < 0 {
      MulMonotone(b, q, -1);
    }
  }

  /** The ceiling of a quotient is determined by the bracketing of its numerator. */
  lemma CeilDivUnique(a: int, b: int, q: int)
    requires b > 0
    requires b * (q - 1) < a <= b * q
    ensures CeilDiv(a, b) == q
  {
    var c := CeilDiv(a, b);
    if c < q {
      MulMonotone(b, c, q - 1);
      assert false;
    } else if q < c {
      MulMonotone(b, q, c - 1);
      assert false;
    }
  }

  /** Every multiple of `b` that does not exceed `a` has an index of at most `CeilDiv(a, b)`. */
  lemma MultipleBelowCeil(a: int, b: int, j: int)
    requires b > 0
    requires b * j <= a
    ensures j <= CeilDiv(a, b)
  {
    var c := CeilDiv(a, b);
    if c < j {
      MulMonotone(b, c + 1, j);
      assert false;
    }
  }
}
