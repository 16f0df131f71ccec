/** `DateTime` values as tick counts, and the `TimeSpan`/`AddDays` arithmetic the views use. */
module Time {

  /** A `DateTime` is its tick count; `default(DateTime)` is tick 0. */
  type Instant = int

  const TicksPerMillisecond: int := 10_000
  const MillisPerDay: int := 86_400_000
  const TicksPerDay: int := 864_000_000_000

  /** `d.AddDays(n)` for a whole number of days. */
  function AddWholeDays(d: Instant, n: int): (r: Instant)
    ensures n > 0 <==> r > d
    ensures r - d == n * TicksPerDay
  {
    d + n * TicksPerDay
  }

  /** `(e - s).TotalDays`, exactly. */
  function TotalDays(ticks: int): (r: real)
    ensures r > 0.0 <==> ticks > 0
    ensures r * TicksPerDay as real == ticks as real
  {
    ticks as real / TicksPerDay as real
  }

  lemma {:induction false} TotalDaysAdd(a: int, b: int)
    ensures TotalDays(a) + TotalDays(b) == TotalDays(a + b)
  {
  }

  /** Conversion of a `double` to `long` after the half-away-from-zero bias that `DateTime.AddDays(double)`
      applies: the value is rounded to the nearest whole millisecond, ties away from zero. */
  function RoundHalfAway(x: real): (r: int)
    ensures x >= 0.0 ==> r >= 0 && x - 0.5 < r as real <= x + 0.5
    ensures x < 0.0 ==> r <= 0 && x - 0.5 <= r as real < x + 0.5
  {
    if x >= 0.0 then (x + 0.5).Floor else -((-x + 0.5).Floor)
  }

  /** The number of ticks `DateTime.AddDays(days)` moves an instant by. */
  function DayTicks(days: real): (r: int)
    ensures r % TicksPerMillisecond == 0
    ensures days >= 0.0 ==> r >= 0
    ensures days <= 0.0 ==> r <= 0
    ensures -(TicksPerMillisecond as real) / 2.0 <= r as real - days * TicksPerDay as real <= TicksPerMillisecond as real / 2.0
  {
    var x := days * MillisPerDay as real;
    var m := RoundHalfAway(x);
    assert days * TicksPerDay as real == x * TicksPerMillisecond as real;
    assert (m * TicksPerMillisecond) as real == m as real * TicksPerMillisecond as real;
    m * TicksPerMillisecond
  }

  /** Moving by `-days` undoes moving by `days`: the rounding is symmetric about zero. */
  lemma {:induction false} DayTicksOdd(days: real)
    ensures DayTicks(-days) == -DayTicks(days)
  {
    var x := days * MillisPerDay as real;
    assert (-days) * MillisPerDay as real == -x;
    if x == 0.0 {
      assert RoundHalfAway(x) == 0;
      assert RoundHalfAway(-x) == 0;
    }
  }

  /** A whole number of days moves an instant by exactly that many days. */
  lemma {:induction false} DayTicksWhole(n: int)
    ensures DayTicks(n as real) == n * TicksPerDay
  {
    var x := n as real * MillisPerDay as real;
    assert x == (n * MillisPerDay) as real;
    var m := n * MillisPerDay;
    if x >= 0.0 {
      assert (x + 0.5).Floor == m;
    } else {
      assert (-x + 0.5).Floor == -m;
    }
  }

  function Min(a: int, b: int): (r: int)
    ensures r <= a && r <= b && (r == a || r == b)
  {
    if a < b then a else b
  }

  function Max(a: int, b: int): (r: int)
    ensures r >= a && r >= b && (r == a || r == b)
  {
    if a > b then a else b
  }
}
