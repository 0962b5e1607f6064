/** The temperature-driven controller of src/fand/fanctrl.c: curve, hysteresis and whole runs. */
module FanCurve {
  import opened Bytes
  import opened FandCfg
  import opened Interpolation

  /** The configuration fanctrl_configure stores. */
  datatype Controls = Controls(temps: seq<Byte>, speeds: seq<Byte>, hysteresis: Byte, throttle: bool)

  ghost predicate WellFormed(c: Controls) {
    1 <= |c.temps| == |c.speeds| <= MAX_ROWS
  }

  ghost predicate Nondecreasing(s: seq<Byte>) {
    forall i, j :: 0 <= i <= j < |s| ==> s[i] <= s[j]
  }

  /** The row index i the search loop stops at from row `from`: temps[i] < t <= temps[i + 1]; -1 if it runs out. */
  function Bracket(temps: seq<Byte>, t: int, from: nat): int
    decreases |temps| - from
  {
    if from + 1 >= |temps| then -1
    else if temps[from] < t <= temps[from + 1] then from
    else Bracket(temps, t, from + 1)
  }

  /** The threshold a temperature falls on: -1 below the first row, rows - 1 above the last. */
  function Threshold(temps: seq<Byte>, t: int): (i: int)
    requires |temps| >= 1
    ensures -1 <= i < |temps|
  {
    if t <= temps[0] then -1
    else if t <= temps[|temps| - 1] then
      BracketFound(temps, t, 0);
      Bracket(temps, t, 0)
    else |temps| - 1
  }

  /** For any temperatures, sorted or not, a temperature between the first and last row has a bracket. */
  lemma {:induction false} BracketFound(temps: seq<Byte>, t: int, from: nat)
    requires from < |temps| && temps[from] < t <= temps[|temps| - 1]
    ensures var i := Bracket(temps, t, from); from <= i < |temps| - 1 && temps[i] < t <= temps[i + 1]
    decreases |temps| - from
  {
    if temps[from + 1] < t {
      BracketFound(temps, t, from + 1);
    }
  }

  /** For any temperatures the bracket found is the first one. */
  lemma {:induction false} BracketIsFirst(temps: seq<Byte>, t: int, from: nat, j: nat)
    requires from <= j && j + 1 < |temps| && temps[j] < t <= temps[j + 1]
    ensures from <= Bracket(temps, t, from) <= j
    decreases |temps| - from
  {
    if !(temps[from] < t <= temps[from + 1]) {
      BracketIsFirst(temps, t, from + 1, j);
    }
  }

  lemma ThresholdRange(temps: seq<Byte>, t: int)
    requires |temps| >= 1
    ensures var i := Threshold(temps, t);
      && (i >= 0 ==> temps[i] < t)
      && (0 <= i < |temps| - 1 && t <= temps[|temps| - 1] ==> t <= temps[i + 1])
      && (i == -1 <==> t <= temps[0])
      && (t > temps[0] && t > temps[|temps| - 1] ==> i == |temps| - 1)
  {
    if temps[0] < t <= temps[|temps| - 1] {
      BracketFound(temps, t, 0);
    }
  }

  /** How many rows lie below a temperature. */
  function RowsBelow(temps: seq<Byte>, t: int): nat {
    if temps == [] then 0 else RowsBelow(temps[..|temps| - 1], t) + if temps[|temps| - 1] < t then 1 else 0
  }

  lemma {:induction false} RowsBelowSorted(temps: seq<Byte>, t: int, n: nat)
    requires Nondecreasing(temps) && n <= |temps|
    requires n > 0 ==> temps[n - 1] < t
    requires n < |temps| ==> t <= temps[n]
    ensures RowsBelow(temps, t) == n
    decreases |temps|
  {
    if temps != [] {
      var front := temps[..|temps| - 1];
      RowsBelowSorted(front, t, if n == |temps| then n - 1 else n);
    }
  }

  /** For sorted temperatures the threshold counts the rows below the temperature. */
  lemma ThresholdCounts(temps: seq<Byte>, t: int)
    requires |temps| >= 1 && Nondecreasing(temps)
    ensures Threshold(temps, t) + 1 == RowsBelow(temps, t)
  {
    ThresholdRange(temps, t);
    RowsBelowSorted(temps, t, Threshold(temps, t) + 1);
  }

  /** The speed the curve itself assigns to a temperature, before hysteresis. */
  function CurveSpeed(c: Controls, t: int): (speed: int)
    requires WellFormed(c) && Nondecreasing(c.speeds)
    ensures speed >= 0
  {
    var last := |c.temps| - 1;
    if t <= c.temps[0] then (if c.throttle then 0 else c.speeds[0])
    else if t <= c.temps[last] then
      BracketFound(c.temps, t, 0);
      var i := Bracket(c.temps, t, 0);
      InverseMonotone(c.temps[i], c.temps[i + 1], c.temps[i], t);
      InverseMonotone(c.temps[i], c.temps[i + 1], t, c.temps[i + 1]);
      LerpBetween(c.speeds[i], c.speeds[i + 1], LerpInverse(c.temps[i], c.temps[i + 1], t));
      Lerp(c.speeds[i], c.speeds[i + 1], LerpInverse(c.temps[i], c.temps[i + 1], t))
    else c.speeds[last]
  }

  /** The curve stays between the speeds of the rows around the temperature. */
  lemma CurveBetweenRows(c: Controls, t: int)
    requires WellFormed(c) && Nondecreasing(c.speeds)
    ensures var i := Threshold(c.temps, t);
      && (i >= 0 ==> c.speeds[i] <= CurveSpeed(c, t))
      && (i + 1 < |c.speeds| ==> CurveSpeed(c, t) <= c.speeds[i + 1])
      && (i + 1 == |c.speeds| ==> CurveSpeed(c, t) == c.speeds[i])
      && 0 <= CurveSpeed(c, t) <= c.speeds[|c.speeds| - 1]
  {
    var last := |c.temps| - 1;
    if c.temps[0] < t <= c.temps[last] {
      BracketFound(c.temps, t, 0);
      var i := Bracket(c.temps, t, 0);
      var a, b := c.temps[i], c.temps[i + 1];
      InverseMonotone(a, b, a, t);
      InverseMonotone(a, b, t, b);
      LerpBetween(c.speeds[i], c.speeds[i + 1], LerpInverse(a, b, t));
    }
  }

  lemma ThresholdMonotone(temps: seq<Byte>, t: int, u: int)
    requires |temps| >= 1 && Nondecreasing(temps) && t <= u
    ensures Threshold(temps, t) <= Threshold(temps, u)
  {
    ThresholdRange(temps, t);
    ThresholdRange(temps, u);
  }

  /** The curve is monotone in the temperature. */
  lemma CurveMonotone(c: Controls, t: int, u: int)
    requires WellFormed(c) && Nondecreasing(c.speeds) && Nondecreasing(c.temps) && t <= u
    ensures CurveSpeed(c, t) <= CurveSpeed(c, u)
  {
    ThresholdMonotone(c.temps, t, u);
    ThresholdRange(c.temps, t);
    ThresholdRange(c.temps, u);
    CurveBetweenRows(c, t);
    CurveBetweenRows(c, u);
    var i, j := Threshold(c.temps, t), Threshold(c.temps, u);
    if i == j {
      if 0 <= i && u <= c.temps[|c.temps| - 1] {
        var a, b := c.temps[i], c.temps[i + 1];
        InverseMonotone(a, b, t, u);
        LerpMonotone(c.speeds[i], c.speeds[i + 1], LerpInverse(a, b, t), LerpInverse(a, b, u));
      }
    } else {
      assert c.speeds[i + 1] <= c.speeds[j];
    }
  }

  /** The curve passes through every row whose temperature is above the one before it. */
  lemma CurveInterpolates(c: Controls, k: nat)
    requires WellFormed(c) && Nondecreasing(c.speeds) && Nondecreasing(c.temps)
    requires 0 < k < |c.temps| && c.temps[k - 1] < c.temps[k]
    ensures CurveSpeed(c, c.temps[k]) == c.speeds[k]
  {
    var t := c.temps[k];
    BracketFound(c.temps, t, 0);
    var i := Bracket(c.temps, t, 0);
    assert i == k - 1;
    InverseMonotone(c.temps[i], t, t, t);
    LerpEnds(c.speeds[i], c.speeds[k]);
  }

  /** Outside the rows the curve is flat: the lowest speed or the throttle below, the highest speed above. */
  lemma CurveEnds(c: Controls, t: int)
    requires WellFormed(c) && Nondecreasing(c.speeds)
    ensures t <= c.temps[0] ==> CurveSpeed(c, t) == if c.throttle then 0 else c.speeds[0]
    ensures t > c.temps[0] && t > c.temps[|c.temps| - 1] ==> CurveSpeed(c, t) == c.speeds[|c.speeds| - 1]
  {
    hide Lerp;
  }

  lemma CurveOnLine(c: Controls, t: int)
    requires WellFormed(c) && Nondecreasing(c.speeds) && c.temps[0] < t <= c.temps[|c.temps| - 1]
    ensures var i := Threshold(c.temps, t);
      && 0 <= i && i + 1 < |c.temps| == |c.speeds| && c.temps[i] < t <= c.temps[i + 1] && c.speeds[i] <= c.speeds[i + 1]
      && CurveSpeed(c, t) == Lerp(c.speeds[i], c.speeds[i + 1], LerpInverse(c.temps[i], c.temps[i + 1], t))
  {
    BracketFound(c.temps, t, 0);
    hide Lerp, LerpInverse;
  }

  /** Between two rows the speed is the integer nearest to the straight line through them, the upper one of two. */
  lemma CurveNearest(c: Controls, t: int)
    requires WellFormed(c) && Nondecreasing(c.speeds) && c.temps[0] < t <= c.temps[|c.temps| - 1]
    ensures var i := Threshold(c.temps, t);
      && 0 <= i && i + 1 < |c.temps| == |c.speeds|
      && var run, rise := c.temps[i + 1] as int - c.temps[i], c.speeds[i + 1] as int - c.speeds[i];
         var line := 2 * rise * (t - c.temps[i]);
         run > 0 && line - run < 2 * run * (CurveSpeed(c, t) - c.speeds[i]) <= line + run
  {
    hide *;
    CurveOnLine(c, t);
    var i := Threshold(c.temps, t);
    InverseMeans(c.temps[i], c.temps[i + 1], t);
    LerpNearest(c.speeds[i], c.speeds[i + 1], t - c.temps[i], c.temps[i + 1] - c.temps[i]);
  }

  // ---- The aggressive throttle ----

  /** The curve as documented: the throttle acts below the lowest row, and the curve goes on from there. */
  function DocumentedSpeed(c: Controls, t: int): int
    requires WellFormed(c) && Nondecreasing(c.speeds)
  {
    if c.throttle && t < c.temps[0] then 0 else CurveSpeed(c.(throttle := false), t)
  }

  /** The code's throttle is the documented one except at the lowest row itself, where it acts as well. */
  lemma ThrottleAsDocumented(c: Controls, t: int)
    requires WellFormed(c) && Nondecreasing(c.speeds)
    ensures CurveSpeed(c, t) == DocumentedSpeed(c, t) <==> !(c.throttle && t == c.temps[0] && c.speeds[0] > 0)
    ensures CurveSpeed(c, c.temps[0]) == c.speeds[0] <==> !c.throttle || c.speeds[0] == 0
  {
    hide Lerp;
  }

  /** With rows 50::30 and 60::60, the throttle stops the fan at 50 degrees, where the curve asks for 30 percent. */
  lemma ThrottledAtLowestRow(hysteresis: Byte)
    ensures var c := Controls([50, 60], [30, 60], hysteresis, true);
      CurveSpeed(c, 50) == 0 && DocumentedSpeed(c, 50) == 30
  {
  }

  // ---- Pulse width ----

  /** `fanctrl_percentage_to_pwm`, fanctrl.c:33. */
  function PercentageToPwm(percentage: nat): int {
    Lerp(0, PWM_MAX, percentage as real / 100.0)
  }

  /** `fanctrl_get_speed`, fanctrl.c:151, from the raw value hwmon_read_pwm returns. */
  function SpeedFromPwm(pwm: int): int {
    if pwm < 0 then -1 else (100.0 * LerpInverse(0, PWM_MAX, pwm)).Floor
  }

  /** Every percentage gives a pulse width hwmon_write_pwm accepts. */
  lemma PwmInRange(p: nat)
    requires p <= 100
    ensures 0 <= PercentageToPwm(p) <= PWM_MAX
  {
  }

  lemma PwmInIntegers(p: nat)
    ensures PercentageToPwm(p) == (255 * p + 50) / 100
  {
  }

  lemma SpeedInIntegers(pwm: nat)
    ensures SpeedFromPwm(pwm) == 100 * pwm / 255
  {
  }

  lemma RoundedUp(x: nat, r: int)
    requires r == x % 100
    ensures 100 * ((x + 50) / 100) == x + (if r < 50 then -r else 100 - r)
  {
  }

  lemma NearMultiple(p: int, d: int)
    requires -255 <= d < 255
    ensures (255 * p + d) / 255 == if d < 0 then p - 1 else p
  {
  }

  /** A percentage written as pulse width reads back as itself or one less, and exactly when it is itself. */
  lemma PwmReadsBack(p: nat)
    requires p <= 100
    ensures SpeedFromPwm(PercentageToPwm(p)) == if 0 < 255 * p % 100 < 50 then p - 1 else p
  {
    hide *;
    var x, r := 255 * p, 255 * p % 100;
    PwmInIntegers(p);
    SpeedInIntegers((x + 50) / 100);
    RoundedUp(x, r);
    NearMultiple(p, if r < 50 then -r else 100 - r);
  }
}

/** The controller's state machine: one decision for each reading, and what holds over every run of readings. */
module FanControl {
  import opened Bytes
  import opened FandCfg
  import opened Options
  import opened Interpolation
  import opened FanCurve

  const MILLIDEGC_ADJUST: int := 1000

  /** The reading falls short of leaving the hysteresis band of the current threshold. */
  predicate Held(c: Controls, current: int, t: int)
    requires |c.temps| >= 1 && -1 <= current < |c.temps|
  {
    current > -1 && Threshold(c.temps, t) < current && t + c.hysteresis > c.temps[current]
  }

  function NextThreshold(c: Controls, current: int, t: int): (next: int)
    requires |c.temps| >= 1 && -1 <= current < |c.temps|
    ensures -1 <= next < |c.temps|
  {
    if Held(c, current, t) then current else Threshold(c.temps, t)
  }

  function ChosenSpeed(c: Controls, current: int, t: int): nat
    requires WellFormed(c) && Nondecreasing(c.speeds) && -1 <= current < |c.temps|
  {
    if Held(c, current, t) then c.speeds[current] else CurveSpeed(c, t)
  }

  /** In every state the controller's speed lies between the curve at t and the curve at t + hysteresis. */
  lemma Envelope(c: Controls, current: int, t: int)
    requires WellFormed(c) && Nondecreasing(c.speeds) && Nondecreasing(c.temps)
    requires -1 <= current < |c.temps|
    ensures CurveSpeed(c, t) <= ChosenSpeed(c, current, t) <= CurveSpeed(c, t + c.hysteresis)
  {
    hide CurveSpeed, Threshold;
    if Held(c, current, t) {
      ThresholdRange(c.temps, t + c.hysteresis);
      CurveBetweenRows(c, t);
      CurveBetweenRows(c, t + c.hysteresis);
      var low, high := Threshold(c.temps, t), Threshold(c.temps, t + c.hysteresis);
      assert c.speeds[low + 1] <= c.speeds[current];
      assert current <= high;
    } else {
      CurveMonotone(c, t, t + c.hysteresis);
    }
  }

  /** Whatever the state, the pulse width derived from the speed is one hwmon_write_pwm accepts. */
  lemma ChosenPwmInRange(c: Controls, current: int, t: int)
    requires WellFormed(c) && Nondecreasing(c.speeds) && -1 <= current < |c.temps|
    requires forall i :: 0 <= i < |c.speeds| ==> c.speeds[i] <= 100
    ensures 0 <= ChosenSpeed(c, current, t) <= 100
    ensures 0 <= PercentageToPwm(ChosenSpeed(c, current, t)) <= PWM_MAX
  {
    CurveBetweenRows(c, t);
    PwmInRange(ChosenSpeed(c, current, t));
  }

  // ---- Runs ----

  /** A run so far: the threshold, the last valid reading, and the counts the amortised bound is about. */
  datatype History = History(threshold: int, last: Option<int>, stepDowns: nat, descent: nat)

  /** After fanctrl_configure, before any reading. */
  const START := History(-1, None, 0, 0)

  /** One call of fanctrl_adjust. Readings below 0 are sensor failures and leave the state alone. */
  ghost function Observe(c: Controls, h: History, t: int): History
    requires |c.temps| >= 1 && -1 <= h.threshold < |c.temps|
  {
    if t < 0 then h
    else
      var next := NextThreshold(c, h.threshold, t);
      History(next, Some(t),
              h.stepDowns + (if next < h.threshold then 1 else 0),
              h.descent + (if h.last.Some? && t < h.last.value then h.last.value - t else 0))
  }

  ghost function Run(c: Controls, readings: seq<int>): (h: History)
    requires |c.temps| >= 1
    ensures -1 <= h.threshold < |c.temps|
  {
    if readings == [] then START else Observe(c, Run(c, readings[..|readings| - 1]), readings[|readings| - 1])
  }

  /** How far the temperature has already fallen below the least reading that selects the current threshold. */
  ghost function Fallen(c: Controls, h: History): int
    requires |c.temps| >= 1 && -1 <= h.threshold < |c.temps|
  {
    if h.threshold >= 0 && h.last.Some? && h.last.value <= c.temps[h.threshold]
    then c.temps[h.threshold] + 1 - h.last.value
    else 0
  }

  /** The descent not yet spent on steps down covers the fall inside the current hysteresis band. */
  ghost predicate Amortised(c: Controls, h: History)
    requires |c.temps| >= 1 && -1 <= h.threshold < |c.temps|
  {
    && (h.threshold >= 0 ==> h.last.Some?)
    && h.stepDowns * (c.hysteresis + 1) + Fallen(c, h) <= h.descent
  }

  lemma ObserveAmortised(c: Controls, h: History, t: int)
    requires |c.temps| >= 1 && -1 <= h.threshold < |c.temps| && Amortised(c, h)
    ensures Amortised(c, Observe(c, h, t))
  {
    if t >= 0 {
      ThresholdRange(c.temps, t);
      var next := Observe(c, h, t);
      if next.threshold < h.threshold {
        assert h.last.value - t + Fallen(c, h) >= c.hysteresis + 1;
        assert (h.stepDowns + 1) * (c.hysteresis + 1) == h.stepDowns * (c.hysteresis + 1) + c.hysteresis + 1;
      }
    }
  }

  /** Over every run, each step down of the threshold is paid for by hysteresis + 1 degrees of falling temperature. */
  lemma {:induction false} StepDownsBounded(c: Controls, readings: seq<int>)
    requires |c.temps| >= 1
    ensures Amortised(c, Run(c, readings))
    ensures Run(c, readings).stepDowns * (c.hysteresis + 1) <= Run(c, readings).descent
  {
    if readings != [] {
      StepDownsBounded(c, readings[..|readings| - 1]);
      ObserveAmortised(c, Run(c, readings[..|readings| - 1]), readings[|readings| - 1]);
    }
  }

  /** A temperature that rises just above the only row and falls to the end of its band, n times. */
  function Zigzag(top: Byte, hysteresis: Byte, n: nat): seq<int> {
    if n == 0 then [] else Zigzag(top, hysteresis, n - 1) + [top as int + 1, top as int - hysteresis]
  }

  lemma TwoMore(c: Controls, readings: seq<int>, t: int, u: int)
    requires |c.temps| >= 1
    ensures Run(c, readings + [t, u]) == Observe(c, Observe(c, Run(c, readings), t), u)
  {
    var one, two := readings + [t], readings + [t, u];
    assert two[..|two| - 1] == one && one[..|one| - 1] == readings;
    hide Observe;
  }

  lemma ZigzagTurn(c: Controls, top: Byte, h: History)
    requires c.temps == [top] && c.hysteresis <= top && h.threshold == -1
    requires h.last.Some? ==> h.last.value <= top
    ensures var bottom := top - c.hysteresis;
      var above := Observe(c, h, top as int + 1);
      && above.threshold == 0
      && Observe(c, above, bottom) == History(-1, Some(bottom), h.stepDowns + 1, h.descent + c.hysteresis + 1)
  {
    assert Threshold(c.temps, top as int + 1) == 0;
    assert forall t | t <= top :: Threshold(c.temps, t) == -1;
    hide Threshold;
  }

  lemma OneMoreFall(n: int, fall: int)
    ensures (n - 1) * fall + fall == n * fall
  {
  }

  /** The bound is met exactly: on a zigzag every hysteresis + 1 degrees of fall make one step down. */
  lemma {:induction false} BoundTight(c: Controls, top: Byte, n: nat)
    requires c.temps == [top] && c.hysteresis <= top
    ensures var h := Run(c, Zigzag(top, c.hysteresis, n));
      && h.stepDowns == n && h.descent == n * (c.hysteresis + 1)
      && h.threshold == -1 && (h.last.Some? ==> h.last.value <= top)
  {
    if n > 0 {
      BoundTight(c, top, n - 1);
      var before := Zigzag(top, c.hysteresis, n - 1);
      TwoMore(c, before, top as int + 1, top as int - c.hysteresis);
      assert Zigzag(top, c.hysteresis, n) == before + [top as int + 1, top as int - c.hysteresis];
      hide *;
      ZigzagTurn(c, top, Run(c, before));
      var fall: int := c.hysteresis + 1;
      OneMoreFall(n, fall);
    }
  }

  /** After any run, the next reading gets a speed inside the hysteresis envelope and an accepted pulse width. */
  lemma RunStaysInEnvelope(c: Controls, readings: seq<int>, t: int)
    requires WellFormed(c) && Nondecreasing(c.speeds) && Nondecreasing(c.temps)
    requires forall i :: 0 <= i < |c.speeds| ==> c.speeds[i] <= 100
    ensures var speed := ChosenSpeed(c, Run(c, readings).threshold, t);
      && CurveSpeed(c, t) <= speed <= CurveSpeed(c, t + c.hysteresis)
      && 0 <= PercentageToPwm(speed) <= PWM_MAX
  {
    hide CurveSpeed, ChosenSpeed, PercentageToPwm, Run;
    Envelope(c, Run(c, readings).threshold, t);
    ChosenPwmInRange(c, Run(c, readings).threshold, t);
  }

  /** The throttle acts below the lowest row, and at it, exactly once the reading has left the current row's band. */
  lemma ThrottleActsExactly(c: Controls, current: int, t: int)
    requires WellFormed(c) && Nondecreasing(c.temps) && Nondecreasing(c.speeds) && c.throttle
    requires -1 <= current < |c.temps| && t <= c.temps[0]
    ensures ChosenSpeed(c, current, t) == 0 <==>
      !(current >= 0 && t + c.hysteresis > c.temps[current]) || c.speeds[current] == 0
  {
  }

  // ---- The documented hysteresis ----

  /** The hysteresis band below row k: readings not above the row but within the hysteresis of it. */
  ghost predicate InBand(c: Controls, k: int, t: int)
    requires 0 <= k < |c.temps|
  {
    0 <= t <= c.temps[k] < t + c.hysteresis
  }

  /**
    * The whole step: the threshold is then at row k or above exactly when the reading is above the row, or the
    * threshold was there and the reading is within the hysteresis of the current row, which may be a higher one.
    */
  lemma AtRowExactly(c: Controls, current: int, k: int, t: int)
    requires WellFormed(c) && Nondecreasing(c.temps) && -1 <= current < |c.temps| && 0 <= k < |c.temps|
    ensures NextThreshold(c, current, t) >= k <==>
      t > c.temps[k] || (current >= k && t + c.hysteresis > c.temps[current])
  {
    ThresholdRange(c.temps, t);
  }

  /** From row k up, the controller asks for at least the speed of row k. */
  lemma SpeedAtRow(c: Controls, current: int, k: int, t: int)
    requires WellFormed(c) && Nondecreasing(c.temps) && Nondecreasing(c.speeds)
    requires -1 <= current < |c.temps| && 0 <= k <= NextThreshold(c, current, t)
    ensures ChosenSpeed(c, current, t) >= c.speeds[k]
  {
    CurveBetweenRows(c, t);
  }

  /**
    * The documented promise: row k is reached when the temperature reaches its temperature, and is then kept until the
    * temperature has fallen by the hysteresis.
    */
  ghost predicate Promised(c: Controls, k: int, readings: seq<int>)
    requires 0 <= k < |c.temps|
  {
    readings != [] &&
    var before, t := readings[..|readings| - 1], readings[|readings| - 1];
    if t < 0 then Promised(c, k, before)
    else t >= c.temps[k] || (Promised(c, k, before) && t + c.hysteresis > c.temps[k])
  }

  /** The threshold after some readings is at row k or above. */
  ghost predicate AtRow(c: Controls, k: int, readings: seq<int>)
    requires 0 <= k < |c.temps|
  {
    Run(c, readings).threshold >= k
  }

  /**
    * A reading that loses the promised row: it only just reaches the row, or it is in the band of row k but has left
    * that of the higher row the threshold is at.
    */
  ghost predicate Slips(c: Controls, k: int, current: int, t: int)
    requires 0 <= k < |c.temps| && -1 <= current < |c.temps|
  {
    && 0 <= t <= c.temps[k]
    && (t == c.temps[k] || (current >= k && t + c.hysteresis > c.temps[k]))
    && !(current >= k && t + c.hysteresis > c.temps[current])
  }

  lemma RunOneMore(c: Controls, readings: seq<int>)
    requires |c.temps| >= 1 && readings != []
    ensures var before, t := readings[..|readings| - 1], readings[|readings| - 1];
      Run(c, readings).threshold
        == if t < 0 then Run(c, before).threshold else NextThreshold(c, Run(c, before).threshold, t)
  {
    hide NextThreshold;
  }

  /** On every run the controller gives a row up no later than documented. */
  lemma {:induction false} NeverHeldTooLong(c: Controls, k: int, readings: seq<int>)
    requires WellFormed(c) && Nondecreasing(c.temps) && 0 <= k < |c.temps|
    ensures AtRow(c, k, readings) ==> Promised(c, k, readings)
  {
    if readings != [] {
      var before, t := readings[..|readings| - 1], readings[|readings| - 1];
      NeverHeldTooLong(c, k, before);
      RunOneMore(c, readings);
      AtRowExactly(c, Run(c, before).threshold, k, t);
      hide Run, NextThreshold;
    }
  }

  /** The threshold was at row k or above after every prefix of the run to which the promise applies. */
  ghost predicate KeptThroughout(c: Controls, k: int, readings: seq<int>)
    requires 0 <= k < |c.temps|
  {
    forall n | 0 <= n <= |readings| :: Promised(c, k, readings[..n]) ==> AtRow(c, k, readings[..n])
  }

  ghost predicate NeverSlips(c: Controls, k: int, readings: seq<int>)
    requires 0 <= k < |c.temps|
  {
    forall n | 0 <= n < |readings| :: !Slips(c, k, Run(c, readings[..n]).threshold, readings[n])
  }

  /** One more reading: the threshold follows the promise, where it did before, exactly if the reading does not slip. */
  lemma PromiseStep(c: Controls, k: int, readings: seq<int>)
    requires WellFormed(c) && Nondecreasing(c.temps) && 0 <= k < |c.temps| && readings != []
    requires var before := readings[..|readings| - 1]; Promised(c, k, before) ==> AtRow(c, k, before)
    ensures (Promised(c, k, readings) ==> AtRow(c, k, readings)) <==>
      !Slips(c, k, Run(c, readings[..|readings| - 1]).threshold, readings[|readings| - 1])
  {
    var before, t := readings[..|readings| - 1], readings[|readings| - 1];
    NeverHeldTooLong(c, k, before);
    RunOneMore(c, readings);
    AtRowExactly(c, Run(c, before).threshold, k, t);
    hide Run, NextThreshold;
  }

  lemma KeptOneMore(c: Controls, k: int, readings: seq<int>)
    requires 0 <= k < |c.temps| && readings != []
    ensures var before, t := readings[..|readings| - 1], readings[|readings| - 1];
      && (KeptThroughout(c, k, readings) <==>
          KeptThroughout(c, k, before) && (Promised(c, k, readings) ==> AtRow(c, k, readings)))
      && (NeverSlips(c, k, readings) <==>
          NeverSlips(c, k, before) && !Slips(c, k, Run(c, before).threshold, t))
  {
    hide Promised, AtRow, Slips, Run;
    var before := readings[..|readings| - 1];
    assert forall n | 0 <= n < |readings| :: before[..n] == readings[..n];
    assert readings[..|readings|] == readings;
  }

  /** On every run, the threshold follows the documented promise throughout exactly when no reading slips. */
  lemma {:induction false} PromiseKeptExactly(c: Controls, k: int, readings: seq<int>)
    requires WellFormed(c) && Nondecreasing(c.temps) && 0 <= k < |c.temps|
    ensures KeptThroughout(c, k, readings) <==> NeverSlips(c, k, readings)
  {
    if readings != [] {
      var before := readings[..|readings| - 1];
      PromiseKeptExactly(c, k, before);
      KeptOneMore(c, k, readings);
      if KeptThroughout(c, k, before) {
        assert before[..|before|] == before;
        PromiseStep(c, k, readings);
      }
      hide *;
    }
  }

  /** While no reading slips, a promised row keeps its speed. */
  lemma PromisedSpeed(c: Controls, k: int, readings: seq<int>, t: int)
    requires WellFormed(c) && Nondecreasing(c.temps) && Nondecreasing(c.speeds) && 0 <= k < |c.temps| && t >= 0
    requires NeverSlips(c, k, readings + [t]) && Promised(c, k, readings + [t])
    ensures ChosenSpeed(c, Run(c, readings).threshold, t) >= c.speeds[k]
  {
    var all := readings + [t];
    PromiseKeptExactly(c, k, all);
    assert all[..|all|] == all && all[..|all| - 1] == readings;
    RunOneMore(c, all);
    SpeedAtRow(c, Run(c, readings).threshold, k, t);
  }

  // ---- The documented speed ----

  /**
    * The guard of the documented speed: the curve itself asks for the speed of row k, or the reading is inside the band
    * of the current row and that row's speed is no lower.
    */
  ghost predicate Serves(c: Controls, k: int, current: int, t: int)
    requires WellFormed(c) && Nondecreasing(c.speeds) && 0 <= k < |c.temps| && -1 <= current < |c.temps|
  {
    || CurveSpeed(c, t) >= c.speeds[k]
    || (current >= 0 && c.speeds[current] >= c.speeds[k] && t + c.hysteresis > c.temps[current])
  }

  /** In any state, the chosen speed is at least that of row k exactly under the guard. */
  lemma ServesExactly(c: Controls, k: int, current: int, t: int)
    requires WellFormed(c) && Nondecreasing(c.speeds) && Nondecreasing(c.temps)
    requires 0 <= k < |c.temps| && -1 <= current < |c.temps|
    ensures ChosenSpeed(c, current, t) >= c.speeds[k] <==> Serves(c, k, current, t)
  {
    ThresholdRange(c.temps, t);
    CurveBetweenRows(c, t);
    hide CurveSpeed, Threshold;
    var i := Threshold(c.temps, t);
    if Held(c, current, t) {
      assert CurveSpeed(c, t) <= c.speeds[i + 1] <= c.speeds[current];
    } else if current >= 0 && t + c.hysteresis > c.temps[current] {
      assert c.speeds[current] <= c.speeds[i] <= CurveSpeed(c, t);
    }
  }

  /** At every reading to which the promise applies, the controller asked for at least the speed of row k. */
  ghost predicate SpeedKept(c: Controls, k: int, readings: seq<int>)
    requires WellFormed(c) && Nondecreasing(c.speeds) && 0 <= k < |c.temps|
  {
    forall n | 0 <= n < |readings| && readings[n] >= 0 && Promised(c, k, readings[..n + 1]) ::
      ChosenSpeed(c, Run(c, readings[..n]).threshold, readings[n]) >= c.speeds[k]
  }

  /** Every reading to which the promise applies met the guard in the state it found. */
  ghost predicate AlwaysServes(c: Controls, k: int, readings: seq<int>)
    requires WellFormed(c) && Nondecreasing(c.speeds) && 0 <= k < |c.temps|
  {
    forall n | 0 <= n < |readings| && readings[n] >= 0 && Promised(c, k, readings[..n + 1]) ::
      Serves(c, k, Run(c, readings[..n]).threshold, readings[n])
  }

  /** On every run, the documented speed is kept exactly when every promised reading meets the guard. */
  lemma SpeedKeptExactly(c: Controls, k: int, readings: seq<int>)
    requires WellFormed(c) && Nondecreasing(c.speeds) && Nondecreasing(c.temps) && 0 <= k < |c.temps|
    ensures SpeedKept(c, k, readings) <==> AlwaysServes(c, k, readings)
  {
    hide Promised, ChosenSpeed, Serves, Run;
    forall n | 0 <= n < |readings|
      ensures ChosenSpeed(c, Run(c, readings[..n]).threshold, readings[n]) >= c.speeds[k]
        <==> Serves(c, k, Run(c, readings[..n]).threshold, readings[n])
    {
      ServesExactly(c, k, Run(c, readings[..n]).threshold, readings[n]);
    }
  }

  lemma AboveRow(c: Controls, k: int, t: int)
    requires WellFormed(c) && Nondecreasing(c.speeds) && Nondecreasing(c.temps) && 0 <= k < |c.temps|
    ensures t > c.temps[k] ==> CurveSpeed(c, t) >= c.speeds[k]
  {
    ThresholdRange(c.temps, t);
    CurveBetweenRows(c, t);
    hide CurveSpeed, Threshold;
  }

  /**
    * A reading misses the guard only at or below row k and outside the band of the current row; and at the temperature
    * of row k only where the curve gives that temperature to a row of lower speed, or to the throttle.
    */
  lemma NotServed(c: Controls, k: int, current: int, t: int)
    requires WellFormed(c) && Nondecreasing(c.speeds) && Nondecreasing(c.temps)
    requires 0 <= k < |c.temps| && -1 <= current < |c.temps| && !Serves(c, k, current, t)
    ensures t <= c.temps[k] && (current < k || t + c.hysteresis <= c.temps[current])
    ensures t == c.temps[k] ==>
      || (c.throttle && t == c.temps[0])
      || exists i :: 0 <= i < k && c.temps[i] == t && c.speeds[i] < c.speeds[k]
  {
    AboveRow(c, k, t);
    ThresholdRange(c.temps, t);
    hide Threshold;
    var i := Threshold(c.temps, t);
    if t == c.temps[k] && !(c.throttle && t == c.temps[0]) {
      assert i < k;
      if i >= 0 {
        CurveInterpolates(c, i + 1);
      }
      assert CurveSpeed(c, t) == c.speeds[i + 1];
      assert c.temps[i + 1] == t && c.speeds[i + 1] < c.speeds[k];
    }
  }

  lemma OneReading(c: Controls, k: int, t: int)
    requires WellFormed(c) && Nondecreasing(c.speeds) && 0 <= k < |c.temps| && t >= 0
    ensures Run(c, [t]).threshold == Threshold(c.temps, t)
    ensures Promised(c, k, [t]) <==> t >= c.temps[k]
    ensures t >= c.temps[k] ==> (SpeedKept(c, k, [t]) <==> CurveSpeed(c, t) >= c.speeds[k])
  {
    hide CurveSpeed, Threshold;
    assert [t][..0] == [] && [t][..1] == [t];
    assert Run(c, []) == START && !Promised(c, k, []);
    assert Run(c, [t]) == Observe(c, START, t);
  }

  lemma TwoReadings(c: Controls, k: int, t: int, u: int)
    requires WellFormed(c) && Nondecreasing(c.speeds) && 0 <= k < |c.temps| && t >= 0
    requires c.temps[k] <= u + c.hysteresis - 1 && 0 <= u < c.temps[k] <= t
    ensures SpeedKept(c, k, [t, u]) ==> ChosenSpeed(c, Run(c, [t]).threshold, u) >= c.speeds[k]
  {
    OneReading(c, k, t);
    hide CurveSpeed, Threshold, ChosenSpeed, Run;
    assert [t, u][..1] == [t] && [t, u][..2] == [t, u];
    assert Promised(c, k, [t, u][..2]);
  }

  lemma BelowRow(c: Controls, t: int, i: nat)
    requires WellFormed(c) && Nondecreasing(c.speeds) && Nondecreasing(c.temps) && i + 1 < |c.temps|
    requires c.temps[i] < t <= c.temps[i + 1]
    ensures Threshold(c.temps, t) == i
    ensures CurveSpeed(c, t)
      == Lerp(c.speeds[i], c.speeds[i + 1], LerpInverse(c.temps[i], c.temps[i + 1], t))
  {
    BracketFound(c.temps, t, 0);
    hide Lerp, LerpInverse;
  }

  /** The documentation's own case, row 60 and hysteresis 3: 60 degrees set 30 percent, but 59 already lower it. */
  lemma RowOnlyReached()
    ensures var c := Controls([50, 60, 70], [0, 30, 70], 3, false);
      && SpeedKept(c, 1, [60]) && !SpeedKept(c, 1, [60, 59])
      && Run(c, [60]).threshold == 0 && ChosenSpeed(c, 0, 59) == 27 < c.speeds[1]
  {
    var c := Controls([50, 60, 70], [0, 30, 70], 3, false);
    BelowRow(c, 60, 0);
    BelowRow(c, 59, 0);
    hide Threshold, CurveSpeed, Run, SpeedKept;
    assert CurveSpeed(c, 60) == 30 && CurveSpeed(c, 59) == 27;
    OneReading(c, 1, 60);
    TwoReadings(c, 1, 60, 59);
  }

  /** A fall from above row 61 into the band of row 60 skips that band: 58 gives 24 percent instead of 30. */
  lemma BandSkipped()
    ensures var c := Controls([50, 60, 61], [0, 30, 70], 3, false);
      && SpeedKept(c, 1, [65]) && !SpeedKept(c, 1, [65, 58])
      && Run(c, [65]).threshold == 2 && ChosenSpeed(c, 2, 58) == 24 < c.speeds[1]
  {
    var c := Controls([50, 60, 61], [0, 30, 70], 3, false);
    BelowRow(c, 58, 0);
    assert Threshold(c.temps, 65) == 2 && CurveSpeed(c, 65) == 70;
    hide Threshold, CurveSpeed, Run, SpeedKept;
    assert CurveSpeed(c, 58) == 24;
    OneReading(c, 1, 65);
    TwoReadings(c, 1, 65, 58);
  }

  /** At or below the current row the threshold moves exactly when the reading leaves the band. */
  lemma HeldExactlyInBand(c: Controls, k: int, t: int)
    requires WellFormed(c) && Nondecreasing(c.temps) && 0 <= k < |c.temps| && 0 <= t <= c.temps[k]
    ensures Held(c, k, t) <==> InBand(c, k, t)
    ensures !InBand(c, k, t) ==> NextThreshold(c, k, t) < k
  {
    ThresholdRange(c.temps, t);
  }

  /** However the temperature moves inside the band of the current row, threshold and speed stay put. */
  lemma {:induction false} SteadyInBand(c: Controls, readings: seq<int>, more: seq<int>, k: int)
    requires WellFormed(c) && Nondecreasing(c.temps) && Nondecreasing(c.speeds)
    requires 0 <= k < |c.temps| && Run(c, readings).threshold == k
    requires forall i :: 0 <= i < |more| ==> InBand(c, k, more[i])
    ensures Run(c, readings + more).threshold == k
    ensures forall t :: InBand(c, k, t) ==> ChosenSpeed(c, Run(c, readings + more).threshold, t) == c.speeds[k]
    decreases |more|
  {
    forall t | InBand(c, k, t)
      ensures Held(c, k, t)
    {
      HeldExactlyInBand(c, k, t);
    }
    if more == [] {
      assert readings + more == readings;
    } else {
      var front, t := more[..|more| - 1], more[|more| - 1];
      SteadyInBand(c, readings, front, k);
      assert (readings + more)[..|readings + more| - 1] == readings + front;
    }
  }

  // ---- The module's state and operations ----

  class Controller {
    var rows: Byte
    const temps: array<Byte>
    const speeds: array<Byte>
    var hysteresis: Byte
    var throttle: bool
    var current: int
    /** The readings since the last fanctrl_configure. */
    ghost var readings: seq<int>

    ghost function Config(): Controls
      reads this, temps, speeds
      requires temps.Length == speeds.Length == MAX_ROWS && rows <= MAX_ROWS
    {
      Controls(temps[..rows], speeds[..rows], hysteresis, throttle)
    }

    ghost predicate Valid()
      reads this, temps, speeds
    {
      && temps.Length == speeds.Length == MAX_ROWS && temps != speeds
      && rows <= MAX_ROWS
      && (rows > 0 ==> current == Run(Config(), readings).threshold)
    }

    /** The zero-initialised statics, before the first fanctrl_configure. */
    constructor ()
      ensures Valid() && rows == 0 && current == 0 && readings == []
      ensures fresh(temps) && fresh(speeds)
    {
      rows, hysteresis, throttle, current := 0, 0, false, 0;
      temps := new Byte[MAX_ROWS](_ => 0);
      speeds := new Byte[MAX_ROWS](_ => 0);
      readings := [];
    }

    /** `fanctrl_configure` with `fanctrl_set_matrix`, fanctrl.c:39-83. */
    method Configure(config: ConfigRecord) returns (status: int)
      requires Valid()
      requires |config.matrix| == 2 * MAX_ROWS
      modifies this, temps, speeds
      ensures Valid() && readings == [] && status == if config.matrixRows > MAX_ROWS then -1 else 0
      ensures hysteresis == config.hysteresis && throttle == config.throttle
      ensures status == 0 ==> rows == config.matrixRows
      ensures status == 0 ==> forall k :: 0 <= k < rows ==>
        Config().temps[k] == config.matrix[2 * k] && Config().speeds[k] == config.matrix[2 * k + 1]
      ensures status != 0 ==> Config().temps == old(Config().temps) && Config().speeds == old(Config().speeds)
    {
      current := -1;
      hysteresis := config.hysteresis;
      throttle := config.throttle;
      readings := [];
      if config.matrixRows > MAX_ROWS {
        return -1;
      }
      rows := config.matrixRows;
      for i := 0 to rows
        modifies temps, speeds
        invariant forall k :: 0 <= k < i ==> temps[k] == config.matrix[2 * k] && speeds[k] == config.matrix[2 * k + 1]
      {
        temps[i] := config.matrix[2 * i];
        speeds[i] := config.matrix[2 * i + 1];
      }
      return 0;
    }

    /** `fanctrl_get_temp`, fanctrl.c:135, from the sensor's raw value. */
    static function Degrees(raw: int): int {
      if raw < 0 then raw else raw / MILLIDEGC_ADJUST
    }

    /** `hwmon_write_pwm`, hwmon.c:208; the outcome of the file write is a parameter. */
    static method WritePwm(pwm: int, writeStatus: int) returns (status: int, written: Option<int>)
      ensures pwm > 255 ==> status == -0x20 && written == None
      ensures pwm <= 255 ==> status == writeStatus && written == Some(pwm)
    {
      if pwm > PWM_MAX {
        return FATAL_ERR, None;
      }
      return writeStatus, Some(pwm);
    }

    /** The threshold and speed selection of `fanctrl_adjust`, fanctrl.c:102-122. */
    method Select(temp: int) returns (threshold: int, speed: int)
      requires temps.Length == speeds.Length == MAX_ROWS && 0 < rows <= MAX_ROWS
      requires Nondecreasing(Config().speeds)
      ensures threshold == Threshold(Config().temps, temp) && speed == CurveSpeed(Config(), temp)
    {
      ghost var c := Config();
      threshold, speed := -1, speeds[rows - 1];
      if temp <= temps[0] {
        speed := if throttle then 0 else speeds[0];
      } else if temp <= temps[rows - 1] {
        BracketFound(c.temps, temp, 0);
        var i := 0;
        while i < rows - 1
          invariant 0 <= i <= rows - 1
          invariant threshold == -1 && Bracket(c.temps, temp, i) == Bracket(c.temps, temp, 0)
        {
          if temps[i] < temp && temps[i + 1] >= temp {
            assert i == Bracket(c.temps, temp, 0);
            assert c.speeds[i] == speeds[i] && c.speeds[i + 1] == speeds[i + 1];
            threshold := i;
            var frac := LerpInverse(temps[i], temps[i + 1], temp);
            speed := Lerp(speeds[i], speeds[i + 1], frac);
            break;
          }
          i := i + 1;
        }
      } else {
        threshold := rows - 1;
        speed := speeds[rows - 1];
      }
    }

    /** `fanctrl_adjust`, fanctrl.c:85. */
    method Adjust(raw: int, writeStatus: int) returns (status: int, written: Option<int>)
      requires Valid() && Nondecreasing(Config().speeds)
      modifies `current, `readings
      ensures Valid()
      ensures rows == 0 ==> status == FATAL_ERR && written == None && readings == old(readings)
      ensures rows > 0 && raw < 0 ==> status == raw && written == None && readings == old(readings)
      ensures rows > 0 && raw >= 0 ==>
        var pwm := PercentageToPwm(ChosenSpeed(Config(), old(current), Degrees(raw)));
        && readings == old(readings) + [Degrees(raw)]
        && (pwm <= PWM_MAX ==> status == writeStatus && written == Some(pwm))
        && (pwm > PWM_MAX ==> status == FATAL_ERR && written == None)
    {
      hide CurveSpeed, Threshold, PercentageToPwm;
      if rows == 0 {
        return FATAL_ERR, None;
      }
      var temp := Degrees(raw);
      if temp < 0 {
        return temp, None;
      }
      ghost var c := Config();
      var threshold, speed := Select(temp);
      readings := readings + [temp];
      assert readings[..|readings| - 1] == old(readings);
      if current > -1 && threshold < current && temp + hysteresis > temps[current] {
        speed := speeds[current];
      } else {
        current := threshold;
      }
      status, written := WritePwm(PercentageToPwm(speed), writeStatus);
    }
  }

  /** A raw value of n millidegrees counts as that many whole degrees; a failed sensor's value is passed on. */
  lemma WholeDegrees(raw: int)
    ensures raw >= 0 ==> 1000 * Controller.Degrees(raw) <= raw < 1000 * Controller.Degrees(raw) + 1000
    ensures raw < 0 ==> Controller.Degrees(raw) == raw
  {
  }
}
