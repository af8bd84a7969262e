/** The control loop over every run: any readings, temperatures and orders, for ever so long. */
module DimmerRuns {
  import opened Common
  import opened Pid
  import opened Dimmer

  function Run(c: Ctl, inputs: seq<Input>): (c': Ctl)
    requires Inv(c)
    ensures Inv(c')
    decreases |inputs|
  {
    if inputs == [] then c
    else
      IterateKeeps(c, inputs[0]);
      Run(Iterate(c, inputs[0]), inputs[1..])
  }

  lemma {:induction false} RunCounts(c: Ctl, inputs: seq<Input>)
    requires Inv(c)
    ensures inputs != [] ==> 1 <= Run(c, inputs).countPower
    decreases |inputs|
  {
    if inputs != [] {
      IterateKeeps(c, inputs[0]);
      RunCounts(Iterate(c, inputs[0]), inputs[1..]);
    }
  }

  /** At the end of every iteration of every run, whatever the settings of the power controller:
      the shortest delay is exactly 100, the delay lies between it and the half cycle, the level
      reported last was a percentage, the counters have not wrapped, and the extrapolated power
      is within 500 per iteration, 15000 at most, of the last inverter reading. */
  lemma EveryRunIsRegulated(kp: real, ki: real, kd: real, max: int, min: int, reading: int, inputs: seq<Input>)
    requires inputs != []
    ensures Inv(Initial(kp, ki, kd, max, min, reading))
    ensures var c := Run(Initial(kp, ki, kd, max, min, reading), inputs);
            && c.minDelay == 100 && c.minDelay <= c.result <= HALF_CYCLE
            && 0 <= c.level <= 100
            && 1 <= c.countPower <= 30 && c.countSend <= KEEPALIVE_LAP + 1
            && -500 * c.countPower <= c.sal - c.reading <= 500 * c.countPower
            && -15000 <= c.sal - c.reading <= 15000
  {
    RunCounts(Initial(kp, ki, kd, max, min, reading), inputs);
  }

  /** The NTC controller has no such remedy against windup as the power controller: while the
      temperature stays above the limit and below 45 its integral falls with every iteration. */
  lemma {:induction false} NtcIntegralFalls(c: Ctl, inputs: seq<Input>)
    requires Inv(c) && LIMIT_TEMP < c.ntcTemp < 45
    requires forall i :: 0 <= i < |inputs| ==> LIMIT_TEMP < inputs[i].temperature < 45
    ensures Run(c, inputs).ntc.cumError <= c.ntc.cumError - |inputs|
    decreases |inputs|
  {
    if inputs != [] {
      IterateKeeps(c, inputs[0]);
      NtcFallsOnce(c, inputs[0]);
      NtcIntegralFalls(Iterate(c, inputs[0]), inputs[1..]);
    }
  }

  lemma NtcFallsOnce(c: Ctl, in0: Input)
    requires Inv(c) && LIMIT_TEMP < c.ntcTemp < 45 && LIMIT_TEMP < in0.temperature < 45
    ensures var c' := Iterate(c, in0);
            LIMIT_TEMP < c'.ntcTemp < 45 && c'.ntc.cumError <= c.ntc.cumError - 1
  {
    NtcStep(c, in0);
  }

  lemma {:induction false} RunOneMore(c: Ctl, inputs: seq<Input>, in0: Input)
    requires Inv(c)
    ensures Run(c, inputs + [in0]) == Iterate(Run(c, inputs), in0)
    decreases |inputs|
  {
    var all := inputs + [in0];
    IterateKeeps(c, all[0]);
    assert Run(c, all) == Run(Iterate(c, all[0]), all[1..]);
    if inputs == [] {
      assert all[1..] == [];
    } else {
      RunOneMore(Iterate(c, inputs[0]), inputs[1..], in0);
      assert all[1..] == inputs[1..] + [in0];
    }
  }

  /** What an iteration adds to the NTC integral at this temperature. */
  function NtcShare(temp: int): int {
    if LIMIT_TEMP < temp < 45 then LIMIT_TEMP - temp else 0
  }

  /** The temperature that iteration `i` works on: that of the latest 30th iteration. */
  function TempAt(inputs: seq<Input>, i: nat): int
    requires i < |inputs|
  {
    if i < 30 then 0 else inputs[i - i % 30].temperature
  }

  /** The shares of all iterations. */
  function NtcSum(inputs: seq<Input>): int {
    if inputs == [] then 0
    else
      var i := |inputs| - 1;
      NtcSum(inputs[..i]) + NtcShare(TempAt(inputs, i))
  }

  /** What an iteration from `c` to `c'` does on the NTC side. */
  predicate NtcNext(c: Ctl, in0: Input, c': Ctl) {
    && c'.ntcTemp == (if c.countPower == 30 then in0.temperature else c.ntcTemp)
    && c'.countPower == (if c.countPower == 30 then 1 else c.countPower + 1)
    && c'.ntc.cumError == c.ntc.cumError + NtcShare(c'.ntcTemp)
  }

  lemma NtcStep(c: Ctl, in0: Input)
    requires Inv(c)
    ensures NtcNext(c, in0, Iterate(c, in0))
  {
    NtcPrepares(c, in0);
    NtcUntouched(Prepare(c, in0), in0.order);
  }

  lemma NtcUntouched(c: Ctl, order: Option<Order>)
    requires c.countPower <= 29
    ensures var c' := Count(Obey(Regulate(c), order));
            c'.ntc == c.ntc && c'.ntcTemp == c.ntcTemp && c'.countPower == c.countPower + 1
  {
    ObeyKeeps(Regulate(c), order);
  }

  lemma NtcPrepares(c: Ctl, in0: Input)
    requires Inv(c)
    ensures var c1 := Prepare(c, in0);
            && c1.countPower == (if c.countPower == 30 then 0 else c.countPower) <= 29
            && c1.ntcTemp == (if c.countPower == 30 then in0.temperature else c.ntcTemp)
            && c1.ntc.cumError == c.ntc.cumError + NtcShare(c1.ntcTemp)
  {
  }

  /** The NTC side of the loop after the iterations of `inputs`. */
  predicate NtcAfter(c: Ctl, inputs: seq<Input>) {
    && c.ntc.cumError == NtcSum(inputs)
    && if inputs == [] then c.countPower == 0 && c.ntcTemp == 0
       else c.countPower == (|inputs| - 1) % 30 + 1 && c.ntcTemp == TempAt(inputs, |inputs| - 1)
  }

  lemma NextOfThirty(n: nat)
    requires n > 0
    ensures if n % 30 == 0 then (n - 1) % 30 == 29 else n % 30 == (n - 1) % 30 + 1
  {
  }

  lemma TempNext(inputs: seq<Input>, in0: Input)
    requires inputs != []
    ensures var n := |inputs|;
            TempAt(inputs + [in0], n) == if (n - 1) % 30 == 29 then in0.temperature else TempAt(inputs, n - 1)
  {
    NextOfThirty(|inputs|);
  }

  lemma NtcAfterOneMore(c: Ctl, inputs: seq<Input>, in0: Input, c': Ctl)
    requires NtcAfter(c, inputs) && NtcNext(c, in0, c')
    ensures NtcAfter(c', inputs + [in0])
  {
    assert NtcSum(inputs + [in0]) == NtcSum(inputs) + NtcShare(TempAt(inputs + [in0], |inputs|)) by {
      assert (inputs + [in0])[..|inputs|] == inputs;
    }
    if inputs != [] {
      NextOfThirty(|inputs|);
      TempNext(inputs, in0);
    }
  }

  /** In every run the NTC integral is the sum of 35 minus the temperature over the iterations
      between 36 and 44 degrees. Nothing clears it, and it never rises. */
  lemma {:induction false} NtcIntegralIs(kp: real, ki: real, kd: real, max: int, min: int, reading: int,
                                           inputs: seq<Input>)
    ensures Inv(Initial(kp, ki, kd, max, min, reading))
    ensures NtcAfter(Run(Initial(kp, ki, kd, max, min, reading), inputs), inputs)
  {
    if inputs != [] {
      var c, n := Initial(kp, ki, kd, max, min, reading), |inputs| - 1;
      NtcIntegralIs(kp, ki, kd, max, min, reading, inputs[..n]);
      RunOneMore(c, inputs[..n], inputs[n]);
      NtcStep(Run(c, inputs[..n]), inputs[n]);
      NtcAfterOneMore(Run(c, inputs[..n]), inputs[..n], inputs[n], Run(c, inputs[..n] + [inputs[n]]));
      assert inputs == inputs[..n] + [inputs[n]];
    }
  }

  lemma {:induction false} NtcSumNeverRises(inputs: seq<Input>, n: nat)
    requires n <= |inputs|
    ensures NtcSum(inputs) <= NtcSum(inputs[..n]) <= 0
  {
    if n < |inputs| {
      var i := |inputs| - 1;
      NtcSumNeverRises(inputs[..i], n);
      assert inputs[..i][..n] == inputs[..n];
    } else if n > 0 {
      NtcSumNeverRises(inputs[..n - 1], n - 1);
      assert inputs[..n] == inputs;
    }
  }

  // ---------- Anti-windup ----------

  /** The order leaves gains and limits alone. */
  predicate KeepsSettings(order: Option<Order>) {
    order.Some? && order.value.lenMsg > 0 ==> order.value.topic !in {"kp", "ki", "kd", "min", "max"}
  }

  /** The error that an iteration of `c` with this input works on. */
  function ErrorOf(c: Ctl, in0: Input): int
    requires c.minDelay != HALF_CYCLE
  {
    1 - c.reg - Prepare(c, in0).sal
  }

  /** In the run no order touches the settings, and every error is within `b`. */
  ghost predicate Calm(c: Ctl, inputs: seq<Input>, b: real)
    requires Inv(c)
    decreases |inputs|
  {
    inputs == [] ||
    (IterateKeeps(c, inputs[0]);
     && KeepsSettings(inputs[0].order)
     && -b <= ErrorOf(c, inputs[0]) as real <= b
     && Calm(Iterate(c, inputs[0]), inputs[1..], b))
  }

  function Times(b: real, x: real): real {
    b * x
  }

  /** The coupling of an integral `v` with a delay `r`. */
  ghost predicate Within(b: real, t: real, v: int, r: int) {
    v as real <= t + Times(b, (r - 100) as real) && -(v as real) <= t + Times(b, (HALF_CYCLE - r) as real)
  }

  /** The integral is bounded by how far the delay has come: at each end the delay is driven to
      the limit that clears the integral. */
  ghost predicate Coupled(c: Ctl, b: real, t: real) {
    && Outweighs(c.pwr, b, t) && c.pwr.max >= 1 && c.pwr.min <= -1
    && -b <= c.pwr.lastError as real <= b
    && Within(b, t, c.pwr.cumError, c.result)
  }

  lemma NonNegative(b: real, x: real)
    requires b >= 0.0 && x >= 0.0
    ensures Times(b, x) >= 0.0
  {
    ScaledAtLeast(b, x, 0.0);
  }

  lemma Grows(b: real, x: real, x': real)
    requires b >= 0.0 && x + 1.0 <= x'
    ensures Times(b, x') >= Times(b, x) + b
  {
    ScaledAtLeast(b, x', x + 1.0);
    assert b * (x + 1.0) == b * x + b;
  }

  /** An integral `v` within `t + b * x` stays within its bound, as `x` grows whenever `v` is beyond `t`. */
  lemma StaysWithin(b: real, t: real, v: real, x: real, step: real, x': real)
    requires b >= 0.0 && t > 0.0 && x >= 0.0 && x' >= 0.0 && step <= b
    requires v <= t + Times(b, x)
    requires v + step > t ==> x' >= x + 1.0
    ensures v + step <= t + Times(b, x')
  {
    if v + step > t {
      Grows(b, x, x');
    } else {
      NonNegative(b, x');
    }
  }

  lemma TIsPositive(p: PidState, b: real, t: real)
    requires Outweighs(p, b, t)
    ensures t > 0.0
  {
    ScaledAtLeast(p.kp, b, 0.0);
    ScaledAtLeast(p.kd, b, 0.0);
    if t <= 0.0 {
      ScaledAtLeast(p.ki, 0.0, t);
    }
  }

  lemma WithinKept(b: real, t: real, v: int, r: int, e: int, r': int)
    requires b >= 0.0 && t > 0.0 && Within(b, t, v, r) && -b <= e as real <= b
    requires 100 <= r <= HALF_CYCLE && 100 <= r' <= HALF_CYCLE
    requires (v + e) as real > t ==> r' >= r + 1
    requires ((v + e) as real) < -t ==> r' <= r - 1
    ensures Within(b, t, v + e, r')
  {
    StaysWithin(b, t, v as real, (r - 100) as real, e as real, (r' - 100) as real);
    StaysWithin(b, t, -(v as real), (HALF_CYCLE - r) as real, -(e as real), (HALF_CYCLE - r') as real);
  }

  lemma WithinCleared(b: real, t: real, r: int)
    requires b >= 0.0 && t > 0.0 && 100 <= r <= HALF_CYCLE
    ensures Within(b, t, 0, r)
  {
    NonNegative(b, (r - 100) as real);
    NonNegative(b, (HALF_CYCLE - r) as real);
  }

  lemma RegulateBounds(c: Ctl, b: real, t: real)
    requires Inv(c) && Coupled(c, b, t)
    requires -b <= (1 - c.reg - c.sal) as real <= b
    ensures Within(b, t, Regulate(c).pwr.cumError, Regulate(c).result)
  {
    TIsPositive(c.pwr, b, t);
    if 100 <= c.result + Correction(c) <= HALF_CYCLE {
      KeptWhenFree(c);
      PushesBack(c.pwr, b, t, 1 - c.reg, c.sal);
      WithinKept(b, t, c.pwr.cumError, c.result, 1 - c.reg - c.sal, c.result + Correction(c));
    } else {
      ClearedWhenClamped(c);
      WithinCleared(b, t, Regulate(c).result);
    }
  }

  lemma ClearedWhenClamped(c: Ctl)
    requires Inv(c) && !(100 <= c.result + Correction(c) <= HALF_CYCLE)
    ensures Regulate(c).pwr.cumError == 0 && 100 <= Regulate(c).result <= HALF_CYCLE
  {
    RegulateLimits(c);
  }

  lemma KeptWhenFree(c: Ctl)
    requires Inv(c) && 100 <= c.result + Correction(c) <= HALF_CYCLE
    ensures Regulate(c).result == c.result + Correction(c)
    ensures Regulate(c).pwr.cumError == c.pwr.cumError + (1 - c.reg - c.sal)
  {
    RegulateLimits(c);
  }

  lemma RegulateKeepsSettings(c: Ctl)
    requires Inv(c)
    ensures var p := Regulate(c).pwr;
            p == c.pwr.(error := 1 - c.reg - c.sal, lastError := 1 - c.reg - c.sal, cumError := p.cumError)
  {
    RegulateLimits(c);
  }

  lemma RegulateCouples(c: Ctl, b: real, t: real)
    requires Inv(c) && Coupled(c, b, t)
    requires -b <= (1 - c.reg - c.sal) as real <= b
    ensures Coupled(Regulate(c), b, t)
  {
    RegulateBounds(c, b, t);
    RegulateKeepsSettings(c);
    Recoupled(c, Regulate(c), b, t);
  }

  lemma Recoupled(c: Ctl, c': Ctl, b: real, t: real)
    requires Coupled(c, b, t) && Within(b, t, c'.pwr.cumError, c'.result)
    requires -b <= c'.pwr.lastError as real <= b
    requires c'.pwr == c.pwr.(error := c'.pwr.error, lastError := c'.pwr.lastError, cumError := c'.pwr.cumError)
    ensures Coupled(c', b, t)
  {
  }

  lemma ObeyKeepsSettings(c: Ctl, order: Option<Order>)
    requires KeepsSettings(order)
    ensures Obey(c, order) == c.(reg := Obey(c, order).reg)
  {
  }

  lemma IterateCouples(c: Ctl, in0: Input, b: real, t: real)
    requires Inv(c) && Coupled(c, b, t) && KeepsSettings(in0.order)
    requires -b <= ErrorOf(c, in0) as real <= b
    ensures Coupled(Iterate(c, in0), b, t)
  {
    PrepareKeeps(c, in0);
    var c1 := Prepare(c, in0);
    SameCoupling(c, c1, b, t);
    RegulateCouples(c1, b, t);
    ObeyKeepsSettings(Regulate(c1), in0.order);
    SameCoupling(Regulate(c1), Iterate(c, in0), b, t);
  }

  lemma SameCoupling(c: Ctl, c': Ctl, b: real, t: real)
    requires Coupled(c, b, t) && c'.pwr == c.pwr && c'.result == c.result
    ensures Coupled(c', b, t)
  {
  }

  lemma {:induction false} RunCouples(c: Ctl, inputs: seq<Input>, b: real, t: real)
    requires Inv(c) && Coupled(c, b, t) && Calm(c, inputs, b)
    ensures Coupled(Run(c, inputs), b, t)
    decreases |inputs|
  {
    if inputs != [] {
      IterateKeeps(c, inputs[0]);
      IterateCouples(c, inputs[0], b, t);
      RunCouples(Iterate(c, inputs[0]), inputs[1..], b, t);
    }
  }

  lemma AtMost(b: real, x: real, y: real)
    requires b >= 0.0 && x <= y
    ensures Times(b, x) <= Times(b, y)
  {
    ScaledAtLeast(b, y, x);
  }

  lemma CoupledBounds(c: Ctl, b: real, t: real)
    requires Inv(c) && Coupled(c, b, t)
    ensures -(t + Times(b, 9900.0)) <= c.pwr.cumError as real <= t + Times(b, 9900.0)
  {
    AtMost(b, (c.result - 100) as real, 9900.0);
    AtMost(b, (HALF_CYCLE - c.result) as real, 9900.0);
  }

  /** With settings kp, kd >= 0 < ki and room to correct either way, and errors within `b`, the
      integral of the power controller is bounded over every run of whatever length. */
  lemma AntiWindup(kp: real, ki: real, kd: real, max: int, min: int, reading: int, inputs: seq<Input>, b: real, t: real)
    requires kp >= 0.0 && ki > 0.0 && kd >= 0.0 && max >= 1 && min <= -1 && b >= 0.0
    requires ki * t == kp * b + 2.0 * (kd * b) + 1.0
    requires Inv(Initial(kp, ki, kd, max, min, reading))
    requires Calm(Initial(kp, ki, kd, max, min, reading), inputs, b)
    ensures var c := Run(Initial(kp, ki, kd, max, min, reading), inputs);
            -(t + 9900.0 * b) <= c.pwr.cumError as real <= t + 9900.0 * b
  {
    var c := Initial(kp, ki, kd, max, min, reading);
    TIsPositive(c.pwr, b, t);
    WithinCleared(b, t, c.result);
    RunCouples(c, inputs, b, t);
    CoupledBounds(Run(c, inputs), b, t);
  }

  // ---------- Bounded readings bound the errors ----------

  predicate ReadingsWithin(inputs: seq<Input>, limit: int) {
    forall i :: 0 <= i < |inputs| ==> -limit <= inputs[i].power <= limit && KeepsSettings(inputs[i].order)
  }

  /** The error is the reading, the extrapolation since it, and the regulation, at most. */
  lemma {:induction false} ReadingsBoundErrors(c: Ctl, inputs: seq<Input>, limit: int)
    requires Inv(c) && 0 <= limit && -limit <= c.reading <= limit && ReadingsWithin(inputs, limit)
    ensures Calm(c, inputs, (limit + 18099) as real)
    decreases |inputs|
  {
    if inputs != [] {
      PrepareKeeps(c, inputs[0]);
      IterateKeeps(c, inputs[0]);
      ReadingsBoundErrors(Iterate(c, inputs[0]), inputs[1..], limit);
    }
  }

  /** With the default settings and readings of up to 100 kW either way, the integral stays
      within 32 bits for ever. */
  lemma DefaultsNeverOverflow(reading: int, inputs: seq<Input>)
    requires -100000 <= reading <= 100000 && ReadingsWithin(inputs, 100000)
    ensures Inv(Initial(0.5, 0.2, 0.8, 1000, -1000, reading))
    ensures var c := Run(Initial(0.5, 0.2, 0.8, 1000, -1000, reading), inputs);
            -0x8000_0000 <= c.pwr.cumError < 0x8000_0000
  {
    ReadingsBoundErrors(Initial(0.5, 0.2, 0.8, 1000, -1000, reading), inputs, 100000);
    AntiWindup(0.5, 0.2, 0.8, 1000, -1000, reading, inputs, 118099.0, 1240044.5);
  }
}
