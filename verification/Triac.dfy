/** The triac over every run of zero crossings, timer shots and steps of the control loop. The
    interrupt reads `result` at any moment, also between the correction and its limits. */
module Triac {
  import opened Common
  import opened CArith
  import opened Pid
  import opened Dimmer
  import opened DimmerRuns

  /** Where the control loop is: between iterations, or inside one, after a write to `result`. */
  datatype Phase = Idle | Corrected(order: Option<Order>) | Raised(order: Option<Order>)

  /** A zero crossing at `time` that armed the timer with `delay`. */
  datatype Crossing = Crossing(time: int, delay: int)

  /** `base` is the loop state that the running iteration corrects; `timer` the deadline set. */
  datatype Sys = Sys(now: int, high: bool, timer: Option<int>, last: Option<Crossing>, base: Ctl, phase: Phase)

  datatype Step =
    | Wait(until: int)       // nothing happens up to `until`
    | Shot                   // timer_callback
    | ZeroCross              // GPIO_ISR_Handler
    | Correct(in0: Input)    // the loop up to result += pid
    | LimitLow               // result against min_delay
    | LimitHigh              // result against 10000, and the rest of the iteration

  /** What `conf_gestor` holds at this moment. */
  function Current(s: Sys): Ctl {
    match s.phase
    case Idle => s.base
    case Corrected(_) => AddPid(s.base)
    case Raised(_) => ClampLow(AddPid(s.base))
  }

  /** The one-shot timer fires on time: no waiting past its deadline. */
  predicate Enabled(s: Sys, st: Step) {
    match st
    case Wait(until) => s.now <= until && (s.timer.Some? ==> until <= s.timer.value)
    case Shot => s.timer.Some? && s.timer.value <= s.now
    case ZeroCross => true
    case Correct(_) => s.phase.Idle? && s.base.minDelay != HALF_CYCLE
    case LimitLow => s.phase.Corrected?
    case LimitHigh => s.phase.Raised?
  }

  function Next(s: Sys, st: Step): Sys
    requires Enabled(s, st)
  {
    match st
    case Wait(until) => s.(now := until)
    case Shot => s.(high := true, timer := None)
    case ZeroCross =>
      s.(high := false, timer := Some(s.now + Current(s).result), last := Some(Crossing(s.now, Current(s).result)))
    case Correct(in0) => s.(base := Prepare(s.base, in0), phase := Corrected(in0.order))
    case LimitLow => s.(phase := Raised(s.phase.order))
    case LimitHigh => s.(base := Count(Obey(ClampHigh(Current(s)), s.phase.order)), phase := Idle)
  }

  function Start(now: int, c: Ctl): Sys {
    Sys(now, false, None, None, c, Idle)
  }

  /** The three writes of an iteration are the iteration. */
  lemma PhasesMakeAnIteration(s: Sys, in0: Input)
    requires s.phase.Idle? && s.base.minDelay != HALF_CYCLE
    ensures var s1 := Next(s, Correct(in0));
            var s2 := Next(s1, LimitLow);
            Next(s2, LimitHigh) == s.(base := Iterate(s.base, in0))
  {
  }

  // ---------- Invariants of every run ----------

  /** The deadline is that of the latest crossing, and the output is low up to it and high after it. */
  predicate OnTime(s: Sys) {
    match s.last
    case None => !s.high && s.timer.None?
    case Some(x) =>
      && x.time <= s.now
      && (s.timer.Some? ==> s.timer.value == x.time + x.delay && !s.high)
      && (s.timer.None? ==> s.high)
      && (x.delay >= 0 ==> if s.high then x.time + x.delay <= s.now else s.now <= x.time + x.delay)
  }

  predicate LoopInv(s: Sys) {
    Inv(s.base) && (!s.phase.Idle? ==> s.base.countPower <= 29 && s.base.countSend <= KEEPALIVE_LAP)
  }

  lemma StepKeeps(s: Sys, st: Step)
    requires OnTime(s) && LoopInv(s) && Enabled(s, st)
    ensures OnTime(Next(s, st)) && LoopInv(Next(s, st))
  {
    match st
    case Correct(in0) => PrepareKeeps(s.base, in0);
    case LimitHigh => LimitHighKeeps(s);
    case _ =>
  }

  lemma LimitHighKeeps(s: Sys)
    requires LoopInv(s) && s.phase.Raised?
    ensures LoopInv(Next(s, LimitHigh))
  {
    RegulateLimits(s.base);
    ObeyKeeps(Regulate(s.base), s.phase.order);
    CountKeeps(Obey(Regulate(s.base), s.phase.order));
  }

  ghost predicate Run(s: Sys, steps: seq<Step>, s': Sys)
    decreases |steps|
  {
    if steps == [] then s' == s
    else Enabled(s, steps[0]) && Run(Next(s, steps[0]), steps[1..], s')
  }

  lemma {:induction false} RunKeeps(s: Sys, steps: seq<Step>, s': Sys)
    requires OnTime(s) && LoopInv(s) && Run(s, steps, s')
    ensures OnTime(s') && LoopInv(s')
    decreases |steps|
  {
    if steps != [] {
      StepKeeps(s, steps[0]);
      RunKeeps(Next(s, steps[0]), steps[1..], s');
    }
  }

  /** At every moment of every run, with a delay that was not negative at the latest crossing:
      the output is low before the delay is over and high after it, so never in a half cycle
      that the delay outlasts. A timer that is running was armed by that crossing. */
  lemma TriacTiming(now: int, c: Ctl, steps: seq<Step>, s: Sys)
    requires Inv(c) && Run(Start(now, c), steps, s)
    ensures s.last.Some? && s.last.value.delay >= 0 ==>
              && (s.now < s.last.value.time + s.last.value.delay ==> !s.high)
              && (s.now > s.last.value.time + s.last.value.delay ==> s.high)
    ensures s.timer.Some? ==> s.last.Some? && s.timer.value == s.last.value.time + s.last.value.delay && !s.high
    ensures s.high ==> s.last.Some?
  {
    RunKeeps(Start(now, c), steps, s);
  }

  /** The delay a crossing arms, at every moment of every run: between the limits of the loop,
      or, between its writes, off them by no more than one correction. */
  lemma ArmedDelay(now: int, c: Ctl, steps: seq<Step>, s: Sys)
    requires Inv(c) && Run(Start(now, c), steps, s)
    requires s.base.pwr.min <= 0 <= s.base.pwr.max
    ensures var d := Next(s, ZeroCross).last.value.delay;
            && 100 + s.base.pwr.min <= d <= HALF_CYCLE + s.base.pwr.max
            && (s.phase.Idle? ==> 100 <= d <= HALF_CYCLE)
            && (s.phase.Raised? ==> 100 <= d)
  {
    RunKeeps(Start(now, c), steps, s);
    OutputWithin(s.base.pwr, 1 - s.base.reg, s.base.sal);
  }

  /** An answer of the power controller in this state of the loop. */
  ghost predicate PidAnswers(c: Ctl, pid: int) {
    var e := 1 - c.reg - c.sal;
    Responds(c.pwr.kp, c.pwr.ki, c.pwr.kd, e, c.pwr.cumError + e, e - c.pwr.lastError, c.pwr.max, c.pwr.min, pid)
  }

  /** At every moment of every run a crossing turns the output off and arms the delay that the loop
      holds then: the one of the last iteration, after the correction that one corrected by the
      answer of the controller, and after the low limit no less than 100. */
  lemma CrossingArms(now: int, c: Ctl, steps: seq<Step>, s: Sys)
    requires Inv(c) && Run(Start(now, c), steps, s)
    ensures var s' := Next(s, ZeroCross);
            && !s'.high && s'.last.Some? && s'.last.value.time == s'.now == s.now
            && s'.timer == Some(s.now + s'.last.value.delay)
            && (s.phase.Idle? ==> s'.last.value.delay == s.base.result)
            && (s.phase.Corrected? ==>
                  exists pid :: PidAnswers(s.base, pid) && s'.last.value.delay == s.base.result + pid)
            && (s.phase.Raised? ==>
                  exists pid :: PidAnswers(s.base, pid)
                    && s'.last.value.delay == if s.base.result + pid < 100 then 100 else s.base.result + pid)
  {
    RunKeeps(Start(now, c), steps, s);
    OutputResponds(s.base.pwr, 1 - s.base.reg, s.base.sal);
    assert PidAnswers(s.base, Correction(s.base));
  }

  lemma {:induction false} NoCrossing(s: Sys, steps: seq<Step>, s': Sys)
    requires OnTime(s) && LoopInv(s) && s.last.Some? && Run(s, steps, s') && ZeroCross !in steps
    ensures OnTime(s') && s'.last == s.last && (s'.high <==> s.high || Shot in steps)
    decreases |steps|
  {
    if steps != [] {
      StepKeeps(s, steps[0]);
      NoCrossing(Next(s, steps[0]), steps[1..], s');
      assert steps == [steps[0]] + steps[1..];
    }
  }

  /** After a crossing between two iterations the output is switched on once, exactly when the delay
      of the last iteration is over, whatever the loop writes before the next crossing. */
  lemma HalfCycle(now: int, c: Ctl, before: seq<Step>, s: Sys, after: seq<Step>, s': Sys)
    requires Inv(c) && Run(Start(now, c), before, s) && s.phase.Idle?
    requires Run(Next(s, ZeroCross), after, s') && ZeroCross !in after
    ensures var fire := s.now + s.base.result;
            && (s'.high <==> Shot in after)
            && (s'.now < fire ==> !s'.high) && (s'.now > fire ==> s'.high)
            && (Enabled(s', Shot) ==> s'.now == fire == Next(s', Shot).now && !s'.high && Next(s', Shot).high)
  {
    RunKeeps(Start(now, c), before, s);
    StepKeeps(s, ZeroCross);
    NoCrossing(Next(s, ZeroCross), after, s');
  }

  lemma {:induction false} NoCorrection(s: Sys, steps: seq<Step>, s': Sys)
    requires OnTime(s) && s.phase.Idle? && Run(s, steps, s') && forall st :: st in steps ==> !st.Correct?
    requires LoopInv(s) && (s.last.Some? ==> s.last.value.delay == s.base.result)
    ensures OnTime(s') && s'.base == s.base && s'.phase.Idle?
    ensures s'.last.Some? ==> s'.last.value.delay == s.base.result
    decreases |steps|
  {
    if steps != [] {
      StepKeeps(s, steps[0]);
      NoCorrection(Next(s, steps[0]), steps[1..], s');
    }
  }

  /** Before the first correction every crossing arms 10000 microseconds, a whole half cycle, and
      the output is on no earlier than that. */
  lemma StartsOff(now: int, kp: real, ki: real, kd: real, max: int, min: int, reading: int, steps: seq<Step>, s: Sys)
    requires Run(Start(now, Initial(kp, ki, kd, max, min, reading)), steps, s)
    requires forall st :: st in steps ==> !st.Correct?
    ensures s.last.Some? ==> s.last.value.delay == 10000
    ensures s.high ==> s.last.Some? && s.last.value.time + 10000 <= s.now
    ensures s.base.enable && s.base.pwr.cumError == s.base.pwr.lastError == 0
  {
    NoCorrection(Start(now, Initial(kp, ki, kd, max, min, reading)), steps, s);
  }

  // ---------- Negative delays ----------

  /** The step brings no order that changes the settings of the power controller. */
  predicate Settled(st: Step) {
    st.Correct? ==> KeepsSettings(st.in0.order)
  }

  /** With its settings untouched, the run from `c` comes to a crossing that arms a negative delay. */
  ghost predicate ArmsNegative(c: Ctl, steps: seq<Step>, s: Sys) {
    && (forall st :: st in steps ==> Settled(st))
    && Run(Start(0, c), steps, s)
    && s.last.Some? && s.last.value.delay < 0
  }

  /** The limit that a controller swamped by negative errors, or by positive ones, puts out. */
  function Bottom(p: PidState, up: bool): int {
    if up then p.max else p.min
  }

  /** Errors beyond `n` outweigh what the differential term can do to hold the output off that limit. */
  ghost predicate Sinking(p: PidState, up: bool, n: int) {
    && p.kp >= 0.0 && p.ki >= 0.0 && p.kd >= 0.0
    && (if up then p.max < p.min else p.min <= p.max)
    && Bottom(p, up) < -100
    && (p.kp + p.ki) * n as real >= p.kd * 30000.0 + (1 - Bottom(p, up)) as real
  }

  /** The inverter keeps reporting one power, beyond `n` by more than the extrapolation ever adds. */
  ghost predicate Swamped(c: Ctl, up: bool, n: int) {
    && Inv(c) && c.reg == 0 && Sinking(c.pwr, up, n) && n >= 0
    && c.reading == (if up then -n - 15001 else n + 15001)
    && (if up then c.pwr.cumError >= 0 else c.pwr.cumError <= 0)
    && (c.pwr.lastError == 0 || -15000 <= c.pwr.lastError - (1 - c.reading) <= 15000)
  }

  lemma PullsDown(kp: real, ki: real, kd: real, n: real, k: real, e: real, sum: real, rate: real)
    requires kp >= 0.0 && ki >= 0.0 && kd >= 0.0 && (kp + ki) * n >= kd * 30000.0 + k
    requires e <= -n && sum <= -n && rate <= 30000.0
    ensures kp * e + ki * sum + kd * rate <= -k
  {
    ScaledAtLeast(kp, -n, e);
    ScaledAtLeast(ki, -n, sum);
    ScaledAtLeast(kd, 30000.0, rate);
    assert kp * -n + ki * -n == -((kp + ki) * n);
  }

  lemma TruncBeyond(x: real, k: int)
    requires k >= 0 && x <= -(k as real)
    ensures Trunc(x) <= -k && Trunc(-x) >= k
  {
    assert (-x).Floor >= k;
  }

  lemma SinkingOutput(p: PidState, up: bool, n: int, e: int)
    requires Sinking(p, up, n) && n >= 0
    requires if up then e >= n && p.cumError >= 0 else e <= -n && p.cumError <= 0
    requires if up then e - p.lastError >= -30000 else e - p.lastError <= 30000
    ensures Limit(p, RawOutput(p, e)) == Bottom(p, up)
  {
    var k := 1 - Bottom(p, up);
    var sum, rate := p.cumError + e, e - p.lastError;
    if up {
      PullsDown(p.kp, p.ki, p.kd, n as real, k as real, (-e) as real, (-sum) as real, (-rate) as real);
      TruncBeyond(Weighted(p.kp, p.ki, p.kd, -e, -sum, -rate), k);
      WeightedNegates(p.kp, p.ki, p.kd, e, sum, rate);
    } else {
      PullsDown(p.kp, p.ki, p.kd, n as real, k as real, e as real, sum as real, rate as real);
      TruncBeyond(Weighted(p.kp, p.ki, p.kd, e, sum, rate), k);
    }
  }

  lemma SinkingSettings(p: PidState, p': PidState, up: bool, n: int)
    requires Sinking(p, up, n) && p' == p.(error := p'.error, cumError := p'.cumError, lastError := p'.lastError)
    ensures Sinking(p', up, n)
  {
  }

  function Same(c: Ctl): Input {
    Input(c.reading, 0, None)
  }

  lemma SwampedCorrection(c: Ctl, up: bool, n: int)
    requires Swamped(c, up, n)
    ensures var c1 := Prepare(c, Same(c));
            Correction(c1) == Bottom(c.pwr, up) && c1.reg == 0 && c1.reading == c.reading && c1.pwr == c.pwr
            && c1.result == c.result && -15000 <= c1.sal - c.reading <= 15000
  {
    PrepareKeeps(c, Same(c));
    var c1 := Prepare(c, Same(c));
    ThermalKeeps(Report(Fetch(c, Same(c))));
    SinkingOutput(c.pwr, up, n, 1 - c1.sal);
  }

  /** Every correction is the limit, which the delay follows down to 100. */
  lemma SwampedSinks(c: Ctl, up: bool, n: int)
    requires Swamped(c, up, n)
    ensures Swamped(Iterate(c, Same(c)), up, n)
    ensures Iterate(c, Same(c)).result == 100 || Iterate(c, Same(c)).result <= c.result - 101
  {
    var c1 := Prepare(c, Same(c));
    var p := Regulate(c1).pwr;
    SwampedCorrection(c, up, n);
    assert Iterate(c, Same(c)) == Count(Regulate(c1));
    assert Inv(Iterate(c, Same(c))) by {
      IterateKeeps(c, Same(c));
    }
    RegulateLimits(c1);
    assert p == c.pwr.(error := p.error, cumError := p.cumError, lastError := 1 - c1.sal);
    SinkingSettings(c.pwr, p, up, n);
  }

  lemma {:induction false} SinksBelowZero(s: Sys, up: bool, n: int, k: nat) returns (steps: seq<Step>, s': Sys)
    requires s.phase.Idle? && Swamped(s.base, up, n) && s.base.result <= 100 + 101 * k
    ensures Run(s, steps, s') && forall st :: st in steps ==> Settled(st)
    ensures s'.last.Some? && s'.last.value.delay < 0
    decreases k
  {
    var in0 := Same(s.base);
    if s.base.result == 100 {
      SwampedCorrection(s.base, up, n);
      steps, s' := [Correct(in0), ZeroCross], Next(Next(s, Correct(in0)), ZeroCross);
      assert steps[1..] == [ZeroCross];
    } else {
      SwampedSinks(s.base, up, n);
      PhasesMakeAnIteration(s, in0);
      var tail;
      tail, s' := SinksBelowZero(s.(base := Iterate(s.base, in0)), up, n, k - 1);
      steps := [Correct(in0)] + ([LimitLow] + ([LimitHigh] + tail));
      RunStep(Next(Next(s, Correct(in0)), LimitLow), LimitHigh, tail, s');
      RunStep(Next(s, Correct(in0)), LimitLow, [LimitHigh] + tail, s');
    }
  }

  lemma RunStep(s: Sys, st: Step, steps: seq<Step>, s': Sys)
    requires Enabled(s, st) && Run(Next(s, st), steps, s')
    ensures Run(s, [st] + steps, s')
  {
    assert ([st] + steps)[1..] == steps;
  }

  /** A number that `g` takes beyond `k`. */
  lemma Archimedes(g: real, k: real) returns (n: int)
    requires g > 0.0 && k >= 0.0
    ensures n >= 0 && g * n as real >= k
  {
    var q := k / g;
    assert g * q == k && q >= 0.0;
    n := q.Floor + 1;
    ScaledAtLeast(g, n as real, q);
  }

  lemma CanArmNegative(kp: real, ki: real, kd: real, max: int, min: int)
      returns (reading: int, steps: seq<Step>, s: Sys)
    requires kp >= 0.0 && ki >= 0.0 && kd >= 0.0 && kp + ki > 0.0
    requires min < -100 || max < -100
    ensures ArmsNegative(Initial(kp, ki, kd, max, min, reading), steps, s)
  {
    var up := max < min;
    var bottom := if up then max else min;
    NonNegative(kd, 30000.0);
    var n := Archimedes(kp + ki, kd * 30000.0 + (1 - bottom) as real);
    reading := if up then -n - 15001 else n + 15001;
    steps, s := SinksBelowZero(Start(0, Initial(kp, ki, kd, max, min, reading)), up, n, 99);
  }

  /** No correction is below -100. */
  ghost predicate Shallow(s: Sys) {
    && OnTime(s) && LoopInv(s)
    && s.base.pwr.min >= -100 && s.base.pwr.max >= -100
    && (s.phase.Idle? || KeepsSettings(s.phase.order))
    && (s.last.Some? ==> s.last.value.delay >= 0)
  }

  lemma StepKeepsShallow(s: Sys, st: Step)
    requires Shallow(s) && Enabled(s, st) && Settled(st)
    ensures Shallow(Next(s, st))
  {
    StepKeeps(s, st);
    match st
    case Correct(in0) => PrepareKeeps(s.base, in0);
    case LimitHigh =>
      RegulateLimits(s.base);
      ObeyKeepsSettings(Regulate(s.base), s.phase.order);
    case _ =>
  }

  lemma {:induction false} RunKeepsShallow(s: Sys, steps: seq<Step>, s': Sys)
    requires Shallow(s) && Run(s, steps, s') && forall st :: st in steps ==> Settled(st)
    ensures Shallow(s')
    decreases |steps|
  {
    if steps != [] {
      StepKeepsShallow(s, steps[0]);
      RunKeepsShallow(Next(s, steps[0]), steps[1..], s');
    }
  }

  /** Whatever the gains, if the proportional or the integral one is positive: some run comes to a
      crossing that arms a negative delay exactly if a limit of the controller is under -100. The
      default limit of -1000 is. */
  lemma NegativeDelayIff(kp: real, ki: real, kd: real, max: int, min: int)
    requires kp >= 0.0 && ki >= 0.0 && kd >= 0.0 && kp + ki > 0.0
    ensures (exists reading, steps, s :: ArmsNegative(Initial(kp, ki, kd, max, min, reading), steps, s))
            <==> min < -100 || max < -100
  {
    if min < -100 || max < -100 {
      var reading, steps, s := CanArmNegative(kp, ki, kd, max, min);
    } else {
      forall reading, steps, s | ArmsNegative(Initial(kp, ki, kd, max, min, reading), steps, s)
        ensures false
      {
        RunKeepsShallow(Start(0, Initial(kp, ki, kd, max, min, reading)), steps, s);
      }
    }
  }
}
