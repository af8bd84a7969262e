/** The control loop of src/dimmer.c: one iteration, stage by stage. */
module Dimmer {
  import opened Common
  import opened CArith
  import opened Pid

  const KEEPALIVE_LAP := 600
  const MAX_POWER := 3600
  const LIMIT_TEMP := 35
  const HALF_CYCLE := 10000  // microseconds

  /** A message for the dimmer, with what `atoi` and `atof` make of its payload. */
  datatype Order = Order(topic: string, lenMsg: nat, atoi: int, atof: real)

  /** What an iteration may get from outside: the inverter and the NTC, if it asks them, and
      at most one order. */
  datatype Input = Input(power: int, temperature: int, order: Option<Order>)

  /** The state of the loop; `reading` is the last value fetched from the inverter. */
  datatype Ctl = Ctl(result: int, minDelay: int, level: int, reg: int, enable: bool, fan: bool,
                     pwr: PidState, ntc: PidState,
                     sal: int, reading: int, ntcTemp: int, countPower: nat, countSend: nat)

  /** As `dimmer_init` leaves it, with the gains and limits it has loaded and a first reading. */
  function Initial(kp: real, ki: real, kd: real, max: int, min: int, reading: int): Ctl {
    Ctl(10000, 100, 0, 0, true, false,
        PidState(kp, ki, kd, 0, 0, 0, max, min), PidState(0.3, 0.2, 0.3, 0, 0, 0, 5, -5),
        reading, reading, 0, 0, 0)
  }

  // ---------- The stages of an iteration ----------

  function Fetch(c: Ctl, in0: Input): Ctl {
    if c.countPower >= 30 then
      c.(sal := in0.power, reading := in0.power, ntcTemp := in0.temperature, countPower := 0)
    else c
  }

  function Level(result: int, minDelay: int): int
    requires minDelay != HALF_CYCLE
  {
    Map(result, HALF_CYCLE, minDelay, 0, 100)
  }

  function Report(c: Ctl): Ctl
    requires c.minDelay != HALF_CYCLE
  {
    if c.countSend > KEEPALIVE_LAP then c.(level := Level(c.result, c.minDelay), countSend := 0) else c
  }

  function TempPid(c: Ctl, temp: int): Ctl {
    c.(ntc := AfterPid(c.ntc, LIMIT_TEMP, temp),
       minDelay := c.minDelay + Map(Output(c.ntc, LIMIT_TEMP, temp), -5, 5, -10, 10))
  }

  function Thermal(c: Ctl): Ctl {
    if c.ntcTemp > 50 then c.(fan := true)
    else if c.ntcTemp > 55 then TempPid(c, c.ntcTemp)
    else if c.ntcTemp < 45 && c.ntcTemp > LIMIT_TEMP then
      var c' := TempPid(c, c.ntcTemp);
      c'.(minDelay := if c'.minDelay < 100 then 100 else c'.minDelay, fan := false)
    else c.(minDelay := 100)
  }

  /** The correction of this iteration. */
  function Correction(c: Ctl): int {
    Output(c.pwr, 1 - c.reg, c.sal)
  }

  function AddPid(c: Ctl): Ctl {
    var pid := Correction(c);
    c.(pwr := AfterPid(c.pwr, 1 - c.reg, c.sal),
       sal := c.sal + Map(pid, -1000, 1000, -500, 500),
       result := c.result + pid)
  }

  function ClampLow(c: Ctl): Ctl {
    var d := if c.minDelay > HALF_CYCLE then HALF_CYCLE else c.minDelay;
    if c.result < d then c.(minDelay := d, result := d, pwr := c.pwr.(cumError := 0)) else c.(minDelay := d)
  }

  function ClampHigh(c: Ctl): Ctl {
    if c.result > HALF_CYCLE then c.(result := HALF_CYCLE, pwr := c.pwr.(cumError := 0), enable := false)
    else c.(enable := true)
  }

  function Obey(c: Ctl, order: Option<Order>): Ctl {
    if order.None? || order.value.lenMsg == 0 then c
    else
      var o := order.value;
      if o.topic == "dimmer" then c.(reg := Map(o.atoi, 0, 100, 0, MAX_POWER))
      else if o.topic == "temperatura" then c
      else if o.topic == "kp" then c.(pwr := c.pwr.(kp := o.atof))
      else if o.topic == "ki" then c.(pwr := c.pwr.(ki := o.atof))
      else if o.topic == "kd" then c.(pwr := c.pwr.(kd := o.atof))
      else if o.topic == "min" then c.(pwr := c.pwr.(min := Trunc(o.atof)))
      else if o.topic == "max" then c.(pwr := c.pwr.(max := Trunc(o.atof)))
      else c
  }

  /** The counters are 8 and 16 bits wide. */
  function Count(c: Ctl): Ctl {
    c.(countPower := (c.countPower + 1) % 0x100, countSend := (c.countSend + 1) % 0x1_0000)
  }

  /** Up to the regulation of the power. */
  function Prepare(c: Ctl, in0: Input): Ctl
    requires c.minDelay != HALF_CYCLE
  {
    Thermal(Report(Fetch(c, in0)))
  }

  function Regulate(c: Ctl): Ctl {
    ClampHigh(ClampLow(AddPid(c)))
  }

  function Iterate(c: Ctl, in0: Input): Ctl
    requires c.minDelay != HALF_CYCLE
  {
    Count(Obey(Regulate(Prepare(c, in0)), in0.order))
  }

  // ---------- What every iteration keeps ----------

  /** The NTC controller has only ever seen temperatures above the limit. */
  predicate NtcCold(p: PidState) {
    p.kp == 0.3 && p.ki == 0.2 && p.kd == 0.3 && p.max == 5 && p.min == -5
    && p.cumError <= p.lastError <= 0 && p.lastError >= -9
  }

  predicate Inv(c: Ctl) {
    && c.minDelay == 100
    && 100 <= c.result <= HALF_CYCLE
    && 0 <= c.reg <= MAX_POWER && 0 <= c.level <= 100
    && c.countPower <= 30 && c.countSend <= KEEPALIVE_LAP + 1
    && -500 * c.countPower <= c.sal - c.reading <= 500 * c.countPower
    && NtcCold(c.ntc)
  }

  /** In the temperatures it is called for, the NTC controller never asks for a longer delay. */
  lemma NtcNeverRaises(p: PidState, temp: int)
    requires NtcCold(p) && LIMIT_TEMP < temp < 45
    ensures Output(p, LIMIT_TEMP, temp) <= 0 && NtcCold(AfterPid(p, LIMIT_TEMP, temp))
    ensures Map(Output(p, LIMIT_TEMP, temp), -5, 5, -10, 10) == 2 * Output(p, LIMIT_TEMP, temp)
  {
    var e := LIMIT_TEMP - temp;
    var raw := Weighted(p.kp, p.ki, p.kd, e, p.cumError + e, e - p.lastError);
    assert raw == 0.8 * e as real + 0.2 * p.cumError as real - 0.3 * p.lastError as real;
    assert raw <= 0.1;
  }

  lemma ThermalKeeps(c: Ctl)
    requires c.minDelay == 100 && NtcCold(c.ntc)
    ensures var c' := Thermal(c);
            c'.minDelay == 100 && NtcCold(c'.ntc) && c' == c.(ntc := c'.ntc, fan := c'.fan)
  {
    if LIMIT_TEMP < c.ntcTemp < 45 {
      NtcNeverRaises(c.ntc, c.ntcTemp);
    }
  }

  lemma PrepareKeeps(c: Ctl, in0: Input)
    requires Inv(c)
    ensures var c' := Prepare(c, in0);
            && Inv(c') && c'.countPower <= 29 && c'.countSend <= KEEPALIVE_LAP
            && c'.result == c.result && c'.pwr == c.pwr && c'.reg == c.reg
            && c'.minDelay == 100 && (c'.reading == c.reading || c'.reading == in0.power)
  {
    LevelIsPercentage(c.result, c.minDelay);
    ThermalKeeps(Report(Fetch(c, in0)));
  }

  /** Half of the correction, rounded down, at most 500 either way. */
  function HalfLimited(pid: int): int {
    if pid < -1000 then -500 else if pid > 1000 then 500 else pid / 2
  }

  /** The power between two readings is extrapolated by half of each correction. */
  lemma ExtrapolatesByHalf(pid: int)
    ensures Map(pid, -1000, 1000, -500, 500) == HalfLimited(pid)
  {
  }

  /** A regulation order in percent sets watts: 36 for each percent, limited at 0 and 100. */
  lemma RegulationInWatts(c: Ctl, o: Order)
    requires o.topic == "dimmer" && o.lenMsg > 0
    ensures Obey(c, Some(o)).reg == (if o.atoi < 0 then 0 else if o.atoi > 100 then MAX_POWER else 36 * o.atoi)
  {
  }

  /** The new result is the old one corrected and limited; a limit that is hit clears the integral. */
  lemma RegulateLimits(c: Ctl)
    requires c.minDelay == 100
    ensures var c' := Regulate(c);
            var r := c.result + Correction(c);
            && c'.minDelay == 100
            && c'.result == (if r < 100 then 100 else if r > HALF_CYCLE then HALF_CYCLE else r)
            && c'.enable == (r <= HALF_CYCLE)
            && c'.pwr == AfterPid(c.pwr, 1 - c.reg, c.sal).(cumError := c'.pwr.cumError)
            && c'.pwr.cumError == (if r < 100 || r > HALF_CYCLE then 0 else c.pwr.cumError + 1 - c.reg - c.sal)
            && c'.countPower == c.countPower && c'.countSend == c.countSend
            && c'.reg == c.reg && c'.ntc == c.ntc && c'.level == c.level
            && c'.reading == c.reading && c'.sal == c.sal + HalfLimited(Correction(c))
  {
    ExtrapolatesByHalf(Correction(c));
  }

  /** An order changes the regulation or the settings of the power controller, and no more. */
  lemma ObeyKeeps(c: Ctl, order: Option<Order>)
    ensures var c' := Obey(c, order);
            && c' == c.(reg := c'.reg, pwr := c'.pwr)
            && (c'.reg == c.reg || 0 <= c'.reg <= MAX_POWER)
            && c'.pwr.cumError == c.pwr.cumError && c'.pwr.lastError == c.pwr.lastError && c'.pwr.error == c.pwr.error
  {
  }

  /** The counters do not wrap. */
  lemma CountKeeps(c: Ctl)
    requires c.countPower <= 29 && c.countSend <= KEEPALIVE_LAP
    ensures Count(c) == c.(countPower := c.countPower + 1, countSend := c.countSend + 1)
  {
  }

  /** For any readings, temperatures and orders. */
  lemma IterateKeeps(c: Ctl, in0: Input)
    requires Inv(c)
    ensures Inv(Iterate(c, in0)) && 1 <= Iterate(c, in0).countPower
    ensures Iterate(c, in0).reading == c.reading || Iterate(c, in0).reading == in0.power
  {
    PrepareKeeps(c, in0);
    var c1 := Prepare(c, in0);
    RegulateLimits(c1);
    ObeyKeeps(Regulate(c1), in0.order);
    CountKeeps(Obey(Regulate(c1), in0.order));
  }

  // ---------- The reported level ----------

  lemma DivMonotone(x: int, y: int, b: int)
    requires b > 0 && x <= y
    ensures x / b <= y / b
  {
    var p, q := x / b, y / b;
    assert p * b <= x && y < (q + 1) * b;
    Monotone(p, q + 1, b);
  }

  lemma DivExact(k: int, b: int)
    requires b > 0
    ensures k * b / b == k
  {
    var q := k * b / b;
    assert q * b <= k * b < (q + 1) * b;
    Monotone(k, q + 1, b);
    Monotone(q, k + 1, b);
  }

  lemma LevelQuotient(result: int, minDelay: int)
    requires minDelay < HALF_CYCLE && minDelay <= result <= HALF_CYCLE
    ensures var q := (HALF_CYCLE - result) * 100 / (HALF_CYCLE - minDelay);
            0 <= q <= 100 && Level(result, minDelay) == q
  {
    var a, b := HALF_CYCLE - result, HALF_CYCLE - minDelay;
    DivMonotone(0, a * 100, b);
    DivMonotone(a * 100, 100 * b, b);
    DivExact(100, b);
    assert (result - HALF_CYCLE) * 100 == -(a * 100);
  }

  /** The level is a percentage: 0 at the longest delay and 100 at the shortest. */
  lemma LevelIsPercentage(result: int, minDelay: int)
    requires minDelay < HALF_CYCLE && minDelay <= result <= HALF_CYCLE
    ensures Level(result, minDelay) == (HALF_CYCLE - result) * 100 / (HALF_CYCLE - minDelay)
    ensures 0 <= Level(result, minDelay) <= 100
    ensures Level(HALF_CYCLE, minDelay) == 0 && Level(minDelay, minDelay) == 100
  {
    LevelQuotient(result, minDelay);
    LevelQuotient(HALF_CYCLE, minDelay);
    LevelQuotient(minDelay, minDelay);
    DivExact(100, HALF_CYCLE - minDelay);
    DivExact(0, HALF_CYCLE - minDelay);
  }

  /** A longer delay is never reported as a higher level. */
  lemma LevelAntitone(r1: int, r2: int, minDelay: int)
    requires minDelay < HALF_CYCLE && minDelay <= r1 <= r2 <= HALF_CYCLE
    ensures Level(r2, minDelay) <= Level(r1, minDelay)
  {
    LevelIsPercentage(r1, minDelay);
    LevelIsPercentage(r2, minDelay);
    DivMonotone((HALF_CYCLE - r2) * 100, (HALF_CYCLE - r1) * 100, HALF_CYCLE - minDelay);
  }
}
