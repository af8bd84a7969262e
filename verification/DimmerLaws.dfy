/** What the control loop does in the numbers of its purpose: one iteration, and what every run
    leaves in the settings, the reported level, the fan and the reading. */
module DimmerLaws {
  import opened Common
  import opened CArith
  import opened Pid
  import opened Dimmer
  import opened DimmerRuns

  // ---------- One iteration ----------

  function Limited(x: int, low: int, high: int): int {
    if x < low then low else if x > high then high else x
  }

  /** The power the iteration regulates: a new reading every thirtieth time, else the one extrapolated. */
  function PowerIn(c: Ctl, in0: Input): int {
    if c.countPower == 30 then in0.power else c.sal
  }

  /** The answer `pid` of the power controller moves the delay, within 100 and 10000 microseconds.
      A limit that is hit clears the sum of errors, the upper one also disables the output. */
  ghost predicate Corrects(c: Ctl, in0: Input, pid: int, c': Ctl) {
    var power := PowerIn(c, in0);
    var e := 1 - c.reg - power;
    && Responds(c.pwr.kp, c.pwr.ki, c.pwr.kd, e, c.pwr.cumError + e, e - c.pwr.lastError, c.pwr.max, c.pwr.min, pid)
    && c'.result == Limited(c.result + pid, 100, 10000)
    && c'.enable == (c.result + pid <= 10000)
    && c'.sal == power + Limited(pid / 2, -500, 500)
    && c'.pwr.error == c'.pwr.lastError == e
    && c'.pwr.cumError == if 100 <= c.result + pid <= 10000 then c.pwr.cumError + e else 0
  }

  lemma DelayFollows(c: Ctl, in0: Input)
    requires Inv(c)
    ensures exists pid :: Corrects(c, in0, pid, Iterate(c, in0))
  {
    var c1 := Prepare(c, in0);
    PowerPrepared(c, in0);
    assert c1.minDelay == 100 && c1.result == c.result && c1.pwr == c.pwr && c1.reg == c.reg by {
      PrepareKeeps(c, in0);
    }
    OutputResponds(c.pwr, 1 - c.reg, c1.sal);
    RegulateLimits(c1);
    ObeyKeeps(Regulate(c1), in0.order);
    OnlyCounts(c, in0);
    assert Corrects(c, in0, Correction(c1), Iterate(c, in0));
  }

  lemma PowerPrepared(c: Ctl, in0: Input)
    requires Inv(c)
    ensures Prepare(c, in0).sal == PowerIn(c, in0)
  {
    ThermalKeeps(Report(Fetch(c, in0)));
  }

  lemma OnlyCounts(c: Ctl, in0: Input)
    requires Inv(c)
    ensures var c2 := Obey(Regulate(Prepare(c, in0)), in0.order);
            Iterate(c, in0) == c2.(countPower := Iterate(c, in0).countPower, countSend := Iterate(c, in0).countSend)
  {
  }

  /** `temp_pid` moves the shortest delay by twice the answer of the NTC controller, which works
      towards 35 degrees with gains 0.3, 0.2, 0.3 and answers within -5 and 5. */
  lemma HeatMovesTwice(c: Ctl, temp: int)
    requires NtcCold(c.ntc)
    ensures var e := 35 - temp;
            exists pid :: Responds(0.3, 0.2, 0.3, e, c.ntc.cumError + e, e - c.ntc.lastError, 5, -5, pid)
                          && TempPid(c, temp).minDelay == c.minDelay + 2 * pid
    ensures TempPid(c, temp).ntc.cumError == c.ntc.cumError + 35 - temp && TempPid(c, temp).ntc.lastError == 35 - temp
  {
    var e, pid := 35 - temp, Output(c.ntc, LIMIT_TEMP, temp);
    OutputResponds(c.ntc, LIMIT_TEMP, temp);
    assert Responds(c.ntc.kp, c.ntc.ki, c.ntc.kd, e, c.ntc.cumError + e, e - c.ntc.lastError, 5, -5, pid);
    OutputWithin(c.ntc, LIMIT_TEMP, temp);
    Twice(pid);
  }

  lemma Twice(pid: int)
    requires -5 <= pid <= 5
    ensures Map(pid, -5, 5, -10, 10) == 2 * pid
  {
  }

  // ---------- Settings ----------

  predicate Heard(order: Option<Order>, topic: string) {
    order.Some? && order.value.lenMsg > 0 && order.value.topic == topic
  }

  /** The latest order of the run with this topic and something in it. */
  function Latest(inputs: seq<Input>, topic: string): Option<Order> {
    if inputs == [] then None
    else if Heard(inputs[|inputs| - 1].order, topic) then inputs[|inputs| - 1].order
    else Latest(inputs[..|inputs| - 1], topic)
  }

  /** The gain that the order, if there is one, sets. */
  function Gain(o: Option<Order>, before: real): real {
    if o.Some? then o.value.atof else before
  }

  /** The limit that the order, if there is one, sets: what it says without its fraction. */
  predicate LimitSet(o: Option<Order>, before: int, limit: int) {
    if o.Some? then TowardZero(o.value.atof, limit) else limit == before
  }

  /** The power in watts that the order, if there is one, asks for in percent of 3600. */
  function Watts(o: Option<Order>, before: int): int {
    if o.Some? then 36 * Limited(o.value.atoi, 0, 100) else before
  }

  /** Each setting is the one of `c0` or what the latest order of its own topic has made of it. */
  predicate SettingsFollow(c0: Ctl, inputs: seq<Input>, c: Ctl) {
    && c.pwr.kp == Gain(Latest(inputs, "kp"), c0.pwr.kp)
    && c.pwr.ki == Gain(Latest(inputs, "ki"), c0.pwr.ki)
    && c.pwr.kd == Gain(Latest(inputs, "kd"), c0.pwr.kd)
    && LimitSet(Latest(inputs, "min"), c0.pwr.min, c.pwr.min)
    && LimitSet(Latest(inputs, "max"), c0.pwr.max, c.pwr.max)
    && c.reg == Watts(Latest(inputs, "dimmer"), c0.reg)
  }

  lemma Topics(order: Option<Order>)
    ensures Heard(order, "kp") ==> !Heard(order, "ki") && !Heard(order, "kd")
    ensures Heard(order, "ki") ==> !Heard(order, "kd")
    ensures Heard(order, "min") ==> !Heard(order, "max")
    ensures Heard(order, "kp") || Heard(order, "ki") || Heard(order, "kd") ==>
              !Heard(order, "min") && !Heard(order, "max") && !Heard(order, "dimmer")
    ensures Heard(order, "min") || Heard(order, "max") ==> !Heard(order, "dimmer")
  {
    assert "kp"[1] != "ki"[1] && "kp"[1] != "kd"[1] && "ki"[1] != "kd"[1] && "min"[1] != "max"[1];
    assert |"kp"| == |"ki"| == |"kd"| == 2 && |"min"| == |"max"| == 3 && |"dimmer"| == 6;
  }

  /** Between `c` and `c'` each setting is what an order of its own topic makes of it. */
  predicate Sets(c: Ctl, order: Option<Order>, c': Ctl) {
    && c'.pwr.kp == Gain(if Heard(order, "kp") then order else None, c.pwr.kp)
    && c'.pwr.ki == Gain(if Heard(order, "ki") then order else None, c.pwr.ki)
    && c'.pwr.kd == Gain(if Heard(order, "kd") then order else None, c.pwr.kd)
    && LimitSet(if Heard(order, "min") then order else None, c.pwr.min, c'.pwr.min)
    && LimitSet(if Heard(order, "max") then order else None, c.pwr.max, c'.pwr.max)
    && c'.reg == Watts(if Heard(order, "dimmer") then order else None, c.reg)
  }

  lemma ObeySets(c: Ctl, order: Option<Order>)
    ensures Sets(c, order, Obey(c, order))
  {
    Topics(order);
    assert |"temperatura"| == 11;
    if order.Some? {
      TruncIsTowardZero(order.value.atof);
      if Heard(order, "dimmer") {
        RegulationInWatts(c, order.value);
      }
    }
  }

  lemma IterateSets(c: Ctl, in0: Input)
    requires Inv(c)
    ensures Sets(c, in0.order, Iterate(c, in0))
  {
    PrepareKeeps(c, in0);
    RegulateLimits(Prepare(c, in0));
    OnlyCounts(c, in0);
    ObeySets(Regulate(Prepare(c, in0)), in0.order);
  }

  lemma SettingsGoOn(c0: Ctl, inputs: seq<Input>, c: Ctl, c': Ctl)
    requires inputs != [] && SettingsFollow(c0, inputs[..|inputs| - 1], c)
    requires Sets(c, inputs[|inputs| - 1].order, c')
    ensures SettingsFollow(c0, inputs, c')
  {
  }

  lemma RunToLast(c: Ctl, inputs: seq<Input>, in0: Input, all: seq<Input>)
    requires Inv(c) && all == inputs + [in0]
    ensures Run(c, all) == Iterate(Run(c, inputs), in0)
  {
    RunOneMore(c, inputs, in0);
  }

  /** Over every run, each setting is the loaded one or what the latest order of its very topic,
      with something in it, has made of it. */
  lemma {:induction false} SettingsOverRun(c: Ctl, inputs: seq<Input>)
    requires Inv(c)
    ensures SettingsFollow(c, inputs, Run(c, inputs))
  {
    if inputs != [] {
      var n := |inputs| - 1;
      var c' := Run(c, inputs[..n]);
      SettingsOverRun(c, inputs[..n]);
      RunToLast(c, inputs[..n], inputs[n], inputs);
      IterateSets(c', inputs[n]);
      SettingsGoOn(c, inputs, c', Run(c, inputs));
    }
  }

  /** From a start with loaded gains and limits; the regulation starts at 0. */
  lemma LoadedSettingsOverRun(kp: real, ki: real, kd: real, max: int, min: int, reading: int, inputs: seq<Input>)
    ensures Inv(Initial(kp, ki, kd, max, min, reading))
    ensures var c := Run(Initial(kp, ki, kd, max, min, reading), inputs);
            && c.pwr.kp == Gain(Latest(inputs, "kp"), kp)
            && c.pwr.ki == Gain(Latest(inputs, "ki"), ki)
            && c.pwr.kd == Gain(Latest(inputs, "kd"), kd)
            && LimitSet(Latest(inputs, "min"), min, c.pwr.min)
            && LimitSet(Latest(inputs, "max"), max, c.pwr.max)
            && c.reg == Watts(Latest(inputs, "dimmer"), 0)
  {
    SettingsOverRun(Initial(kp, ki, kd, max, min, reading), inputs);
  }

  // ---------- Readings, the level and the fan ----------

  /** What an iteration from `c` to `c'` does to what is watched. */
  predicate WatchedNext(c: Ctl, in0: Input, c': Ctl) {
    && c'.reading == (if c.countPower == 30 then in0.power else c.reading)
    && c'.countSend == (if c.countSend == 601 then 1 else c.countSend + 1)
    && c'.level == (if c.countSend == 601 then Percent(c.result) else c.level)
    && c'.fan == (c'.ntcTemp > 50 || (c.fan && !(36 <= c'.ntcTemp <= 44)))
  }

  lemma WatchedPrepared(c: Ctl, in0: Input)
    requires Inv(c)
    ensures var c1 := Prepare(c, in0);
            && c1.reading == (if c.countPower == 30 then in0.power else c.reading)
            && c1.countSend == (if c.countSend == 601 then 0 else c.countSend)
            && c1.level == (if c.countSend == 601 then Percent(c.result) else c.level)
            && c1.fan == (c1.ntcTemp > 50 || (c.fan && !(36 <= c1.ntcTemp <= 44)))
  {
    LevelIsPercentage(c.result, c.minDelay);
  }

  lemma WatchedUntouched(c: Ctl, order: Option<Order>)
    requires c.countSend <= 600
    ensures var c' := Count(Obey(Regulate(c), order));
            && c'.reading == c.reading && c'.level == c.level && c'.fan == c.fan && c'.ntcTemp == c.ntcTemp
            && c'.countSend == c.countSend + 1
  {
    ObeyKeeps(Regulate(c), order);
  }

  lemma WatchedStep(c: Ctl, in0: Input)
    requires Inv(c)
    ensures WatchedNext(c, in0, Iterate(c, in0))
  {
    WatchedPrepared(c, in0);
    WatchedUntouched(Prepare(c, in0), in0.order);
  }

  /** The latest inverter reading after the iterations of `inputs`: taken at every thirtieth. */
  function ReadingOf(first: int, inputs: seq<Input>): int {
    var i := |inputs| - 1;
    if i < 30 then first else inputs[i - i % 30].power
  }

  /** The level held after them: 0 before iteration 601, then the percentage that the delay was at
      when it was last reported, at every 601st. */
  function LevelOf(c0: Ctl, inputs: seq<Input>): int
    requires Inv(c0)
  {
    if inputs == [] then 0 else LevelAt(c0, inputs, ReportAt(|inputs| - 1))
  }

  function LevelAt(c0: Ctl, inputs: seq<Input>, k: nat): int
    requires Inv(c0) && k < |inputs|
  {
    if k == 0 then 0 else Percent(Run(c0, inputs[..k]).result)
  }

  /** The iteration of the latest report up to iteration `i`. */
  function ReportAt(i: nat): (k: nat)
    ensures k <= i
  {
    i - i % 601
  }

  /** The counter of the report after `n` iterations. */
  function SendCount(n: nat): nat {
    if n == 0 then 0 else (n - 1) % 601 + 1
  }

  /** Of the half cycle left of 9900 microseconds, the percentage behind the delay. */
  function Percent(delay: int): int {
    (10000 - delay) * 100 / 9900
  }

  /** The temperatures that the iterations work on. */
  function Temps(inputs: seq<Input>): seq<int> {
    seq(|inputs|, i requires 0 <= i < |inputs| => TempAt(inputs, i))
  }

  /** Some time it was above 50 degrees, and since then never between 36 and 44. */
  predicate FanIsOn(temps: seq<int>) {
    exists k :: 0 <= k < |temps| && temps[k] > 50 && forall j :: k < j < |temps| ==> !(36 <= temps[j] <= 44)
  }

  lemma FanTurns(temps: seq<int>, t: int)
    ensures FanIsOn(temps + [t]) <==> t > 50 || (FanIsOn(temps) && !(36 <= t <= 44))
  {
    var all, n := temps + [t], |temps|;
    assert all[n] == t && forall j :: 0 <= j < n ==> all[j] == temps[j];
    if k :| 0 <= k < |all| && all[k] > 50 && forall j :: k < j < |all| ==> !(36 <= all[j] <= 44) {
      assert k < n ==> temps[k] > 50;
    }
    if k :| 0 <= k < n && temps[k] > 50 && forall j :: k < j < n ==> !(36 <= temps[j] <= 44) {
      assert all[k] > 50;
    }
  }

  /** What is watched, after the iterations of `inputs` from `c0` on. */
  ghost predicate WatchedAfter(c0: Ctl, inputs: seq<Input>, c: Ctl)
    requires Inv(c0)
  {
    && c.reading == ReadingOf(c0.reading, inputs)
    && c.level == LevelOf(c0, inputs)
    && (c.fan <==> FanIsOn(Temps(inputs)))
    && c.countSend == SendCount(|inputs|)
  }

  lemma NextReport(n: nat)
    ensures SendCount(n + 1) == if SendCount(n) == 601 then 1 else SendCount(n) + 1
    ensures if SendCount(n) == 601 then ReportAt(n) == n else n > 0 ==> ReportAt(n) == ReportAt(n - 1)
    ensures SendCount(n) == 601 ==> n > 0
  {
  }

  lemma ReadingOneMore(first: int, inputs: seq<Input>, in0: Input)
    ensures var n := |inputs|;
            ReadingOf(first, inputs + [in0])
            == if n > 0 && (n - 1) % 30 == 29 then in0.power else ReadingOf(first, inputs)
  {
    if inputs != [] {
      NextOfThirty(|inputs|);
    }
  }

  lemma LevelReported(c0: Ctl, inputs: seq<Input>, in0: Input)
    requires Inv(c0) && inputs != [] && ReportAt(|inputs|) == |inputs|
    ensures LevelOf(c0, inputs + [in0]) == Percent(Run(c0, inputs).result)
  {
    assert (inputs + [in0])[..|inputs|] == inputs;
  }

  lemma LevelStays(c0: Ctl, inputs: seq<Input>, in0: Input)
    requires Inv(c0) && inputs != [] && ReportAt(|inputs|) == ReportAt(|inputs| - 1)
    ensures LevelOf(c0, inputs + [in0]) == LevelOf(c0, inputs)
  {
    var k := ReportAt(|inputs|);
    assert (inputs + [in0])[..k] == inputs[..k];
  }

  lemma ReadingGoesOn(first: int, inputs: seq<Input>, c: Ctl, in0: Input, c': Ctl)
    requires c.reading == ReadingOf(first, inputs) && WatchedNext(c, in0, c')
    requires c.countPower == if inputs == [] then 0 else (|inputs| - 1) % 30 + 1
    ensures c'.reading == ReadingOf(first, inputs + [in0])
  {
    ReadingOneMore(first, inputs, in0);
  }

  lemma LevelGoesOn(c0: Ctl, inputs: seq<Input>, c: Ctl, in0: Input, c': Ctl)
    requires Inv(c0) && c == Run(c0, inputs) && c.level == LevelOf(c0, inputs) && WatchedNext(c, in0, c')
    requires c.countSend == SendCount(|inputs|)
    ensures c'.level == LevelOf(c0, inputs + [in0])
  {
    NextReport(|inputs|);
    if c.countSend == 601 {
      LevelReported(c0, inputs, in0);
    } else if inputs != [] {
      LevelStays(c0, inputs, in0);
    }
  }

  lemma FanGoesOn(inputs: seq<Input>, c: Ctl, in0: Input, c': Ctl)
    requires (c.fan <==> FanIsOn(Temps(inputs))) && WatchedNext(c, in0, c')
    requires c'.ntcTemp == TempAt(inputs + [in0], |inputs|)
    ensures c'.fan <==> FanIsOn(Temps(inputs + [in0]))
  {
    FanTurns(Temps(inputs), c'.ntcTemp);
    assert Temps(inputs + [in0]) == Temps(inputs) + [c'.ntcTemp];
  }

  lemma WatchedGoesOn(c0: Ctl, inputs: seq<Input>, c: Ctl, in0: Input, c': Ctl, all: seq<Input>)
    requires Inv(c0) && c == Run(c0, inputs) && WatchedAfter(c0, inputs, c) && WatchedNext(c, in0, c')
    requires all == inputs + [in0] && NtcAfter(c, inputs) && NtcAfter(c', all)
    ensures WatchedAfter(c0, all, c')
  {
    ReadingGoesOn(c0.reading, inputs, c, in0, c');
    LevelGoesOn(c0, inputs, c, in0, c');
    NextReport(|inputs|);
    FanGoesOn(inputs, c, in0, c');
  }

  /** Over every run: the reading is that of the latest 30th iteration, the level the one reported
      at the latest 601st, and the fan runs since it was above 50 degrees, until it is between 36
      and 44. */
  lemma {:induction false} WatchedOverRun(kp: real, ki: real, kd: real, max: int, min: int, reading: int,
                                          inputs: seq<Input>)
    ensures Inv(Initial(kp, ki, kd, max, min, reading))
    ensures var c0 := Initial(kp, ki, kd, max, min, reading);
            c0.reading == reading && WatchedAfter(c0, inputs, Run(c0, inputs))
  {
    if inputs != [] {
      var c0, n := Initial(kp, ki, kd, max, min, reading), |inputs| - 1;
      var c := Run(c0, inputs[..n]);
      WatchedOverRun(kp, ki, kd, max, min, reading, inputs[..n]);
      RunToLast(c0, inputs[..n], inputs[n], inputs);
      WatchedStep(c, inputs[n]);
      NtcIntegralIs(kp, ki, kd, max, min, reading, inputs[..n]);
      NtcIntegralIs(kp, ki, kd, max, min, reading, inputs);
      WatchedGoesOn(c0, inputs[..n], c, inputs[n], Run(c0, inputs), inputs);
    }
  }
}
