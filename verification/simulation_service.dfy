/** The simulation clock: the current date, a direction of travel, a speed in days per tick and
    whether the one-second timer is enabled. Each timer tick moves the date by
    `direction * speed` days; the date is neither bounded nor clamped. */
module SimulationService {
  import opened Time

  /** The `int direction` field, which only ever holds +1 or -1. */
  datatype Direction = Forward | Backward {
    function Sign(): int {
      if Forward? then 1 else -1
    }

    /** `direction * speedMagnitude`, in days. */
    function Times(speed: real): (r: real)
      ensures r == Sign() as real * speed
    {
      if Forward? then speed else -speed
    }
  }

  datatype Clock = Clock(current: Instant, direction: Direction, speed: real, running: bool)

  /** The speed is positive, from construction on. */
  ghost predicate Valid(c: Clock) {
    c.speed > 0.0
  }

  /** A freshly constructed service: `default(DateTime)`, forward, one day per tick, stopped. */
  const Initial: Clock := Clock(0, Forward, 1.0, false)

  /** The clock after an operation and whether a `CurrentDate` change was announced. */
  datatype Step = Step(clock: Clock, notified: bool)

  /** The `CurrentDate` setter: stores the value and announces it only when it differs. */
  function SetCurrentDate(c: Clock, value: Instant): (r: Step)
    ensures r.clock.current == value
    ensures r.clock.direction == c.direction && r.clock.speed == c.speed && r.clock.running == c.running
    ensures r.notified <==> value != c.current
  {
    if c.current == value then Step(c, false) else Step(c.(current := value), true)
  }

  /** `Start(startDate)`: jump to the date, face forward, start the timer; speed is kept. */
  function Start(c: Clock, startDate: Instant): (r: Step)
    ensures r.clock == Clock(startDate, Forward, c.speed, true)
    ensures r.notified <==> startDate != c.current
    ensures Valid(c) ==> Valid(r.clock)
  {
    var s := SetCurrentDate(c, startDate);
    Step(s.clock.(direction := Forward, running := true), s.notified)
  }

  /** `Pause`: stop the timer and nothing else. */
  function Pause(c: Clock): (r: Clock)
    ensures !r.running
    ensures r.current == c.current && r.direction == c.direction && r.speed == c.speed
  {
    c.(running := false)
  }

  /** `Resume`: play forward at the current speed. */
  function Resume(c: Clock): (r: Clock)
    ensures r.running && r.direction == Forward
    ensures r.current == c.current && r.speed == c.speed
  {
    c.(direction := Forward, running := true)
  }

  /** `Rewind`: play backward at the current speed. */
  function Rewind(c: Clock): (r: Clock)
    ensures r.running && r.direction == Backward
    ensures r.current == c.current && r.speed == c.speed
  {
    c.(direction := Backward, running := true)
  }

  /** `SetSpeed(mul)`: a non-positive multiplier becomes 1; the timer is started if it was
      stopped and is never stopped. */
  function SetSpeed(c: Clock, mul: real): (r: Clock)
    ensures r.speed > 0.0
    ensures mul > 0.0 ==> r.speed == mul
    ensures mul <= 0.0 ==> r.speed == 1.0
    ensures r.running
    ensures r.current == c.current && r.direction == c.direction
  {
    var m := if mul <= 0.0 then 1.0 else mul;
    c.(speed := m, running := true)
  }

  /** `Tick`: move by `direction * speed` days through the `CurrentDate` setter. */
  function Tick(c: Clock): (r: Step)
    ensures r.clock.current == c.current + DayTicks(c.direction.Times(c.speed))
    ensures r.clock.direction == c.direction && r.clock.speed == c.speed && r.clock.running == c.running
    ensures Valid(c) && c.direction == Forward ==> r.clock.current >= c.current
    ensures Valid(c) && c.direction == Backward ==> r.clock.current <= c.current
    ensures r.notified <==> DayTicks(c.direction.Times(c.speed)) != 0
  {
    SetCurrentDate(c, c.current + DayTicks(c.direction.Times(c.speed)))
  }

  /** The dispatcher timer calls `Tick` once per second only while it is enabled. */
  function TimerFired(c: Clock): (r: Step)
    ensures !c.running ==> r == Step(c, false)
    ensures c.running ==> r == Tick(c)
  {
    if c.running then Tick(c) else Step(c, false)
  }

  /** Every operation keeps the clock valid. */
  lemma {:induction false} OperationsKeepValid(c: Clock, d: Instant, mul: real)
    requires Valid(c)
    ensures Valid(Start(c, d).clock) && Valid(Pause(c)) && Valid(Resume(c)) && Valid(Rewind(c))
    ensures Valid(SetSpeed(c, mul)) && Valid(Tick(c).clock) && Valid(TimerFired(c).clock)
  {
  }

  /** One tick backward at the same speed undoes one tick forward. */
  lemma {:induction false} RewindUndoesResume(c: Clock)
    requires Valid(c)
    ensures Tick(Rewind(Tick(Resume(c)).clock)).clock.current == c.current
  {
    DayTicksOdd(c.speed);
  }

  /** The clock after the timer has fired `n` times. */
  function Ticks(c: Clock, n: nat): Clock
    decreases n
  {
    if n == 0 then c else Ticks(TimerFired(c).clock, n - 1)
  }

  /** A stopped clock stays where it is however often the timer would have fired. */
  lemma {:induction false} StoppedClockStays(c: Clock, n: nat)
    requires !c.running
    ensures Ticks(c, n) == c
    decreases n
  {
    if n > 0 {
      StoppedClockStays(c, n - 1);
    }
  }

  /** While running, `n` ticks move the date by `n` steps of `direction * speed` days and change
      nothing else. */
  lemma {:induction false} TicksMoveLinearly(c: Clock, n: nat)
    requires c.running
    ensures Ticks(c, n).current == c.current + n * DayTicks(c.direction.Times(c.speed))
    ensures Ticks(c, n).direction == c.direction && Ticks(c, n).speed == c.speed
    ensures Ticks(c, n).running == c.running
    decreases n
  {
    if n > 0 {
      var step := DayTicks(c.direction.Times(c.speed));
      var t := TimerFired(c);
      var c1 := t.clock;
      assert c1 == c.(current := c.current + step);
      TicksMoveLinearly(c1, n - 1);
      assert Ticks(c, n) == Ticks(c1, n - 1);
      assert Ticks(c1, n - 1).current == c1.current + (n - 1) * step;
      MulSucc(n - 1, step);
    }
  }

  lemma {:induction false} MulSucc(k: int, step: int)
    ensures (k + 1) * step == step + k * step
  {
  }

  /** After `SetSpeed(k)` with a whole number of days, playing forward moves exactly `k` days per
      tick. */
  lemma {:induction false} WholeSpeedMovesWholeDays(c: Clock, k: nat, n: nat)
    requires k > 0
    ensures Ticks(Resume(SetSpeed(c, k as real)), n).current == c.current + n * k * TicksPerDay
  {
    var c1 := Resume(SetSpeed(c, k as real));
    TicksMoveLinearly(c1, n);
    DayTicksWhole(k);
    assert n * (k * TicksPerDay) == n * k * TicksPerDay;
  }
}
