/** The dimmer task in its own form: `conf_gestor` and the local variables of `dimmer_http`. */
module DimmerTask {
  import opened Common
  import opened CArith
  import opened Pid
  import opened Dimmer

  class Task {
    var result: int      // read by the zero-cross interrupt at any time
    var minDelay: int
    var level: int
    var reg: int
    var enable: bool
    var fan: bool
    const pwr: PidInc
    const ntc: PidInc
    var sal: int
    var ntcTemp: int
    var countPower: nat
    var countSend: nat
    ghost var reading: int

    constructor (kp: real, ki: real, kd: real, max: int, min: int, power: int)
      ensures Valid() && fresh(pwr) && fresh(ntc)
      ensures State() == Initial(kp, ki, kd, max, min, power)
    {
      pwr := new PidInc(kp, ki, kd, max, min);
      ntc := new PidInc(0.3, 0.2, 0.3, 5, -5);
      result, minDelay, level, reg, enable, fan := 10000, 100, 0, 0, true, false;
      sal, ntcTemp, countPower, countSend, reading := power, 0, 0, 0, power;
    }

    ghost function State(): Ctl
      reads this, pwr, ntc
    {
      Ctl(result, minDelay, level, reg, enable, fan, pwr.State(), ntc.State(),
          sal, reading, ntcTemp, countPower, countSend)
    }

    ghost predicate Valid()
      reads this, pwr, ntc
    {
      pwr != ntc && Inv(State())
    }

    /** `temp_pid` */
    method HeatPid(temp: int)
      requires pwr != ntc
      modifies this`minDelay, ntc
      ensures State() == TempPid(old(State()), temp)
    {
      var pid := ntc.Run(LIMIT_TEMP, temp);
      var ntcPid := Map(pid, -5, 5, -10, 10);
      minDelay := minDelay + ntcPid;
    }

    /** Inverter and NTC every thirtieth time, the level every 601st, the temperature always. */
    method Observe(in0: Input)
      requires pwr != ntc && minDelay != HALF_CYCLE
      modifies this, ntc
      ensures State() == Prepare(old(State()), in0)
    {
      if countPower >= 30 {
        sal := in0.power;
        reading := in0.power;
        ntcTemp := in0.temperature;
        countPower := 0;
      }
      assert State() == Fetch(old(State()), in0);
      if countSend > KEEPALIVE_LAP {
        level := Map(result, HALF_CYCLE, minDelay, 0, 100);
        countSend := 0;
      }
      assert State() == Report(Fetch(old(State()), in0));
      if ntcTemp > 50 {
        fan := true;
      } else if ntcTemp > 55 {
        assert false;  // HeatPid(ntcTemp), never reached
      } else if ntcTemp < 45 && ntcTemp > LIMIT_TEMP {
        HeatPid(ntcTemp);
        if minDelay < 100 {
          minDelay := 100;
        }
        fan := false;
      } else {
        minDelay := 100;
      }
    }

    method Correct()
      requires pwr != ntc
      modifies this, pwr
      ensures State() == Dimmer.Regulate(old(State()))
    {
      var pid := pwr.Run(1 - reg, sal);
      var arrived := Map(pid, -1000, 1000, -500, 500);
      sal := sal + arrived;
      result := result + pid;
      assert State() == AddPid(old(State()));
      if minDelay > HALF_CYCLE {
        minDelay := HALF_CYCLE;
      }
      if result < minDelay {
        result := minDelay;
        pwr.cumError := 0;
      }
      assert State() == ClampLow(AddPid(old(State())));
      if result > HALF_CYCLE {
        result := HALF_CYCLE;
        pwr.cumError := 0;
        enable := false;
      } else {
        enable := true;
      }
    }

    method Accept(order: Option<Order>)
      requires pwr != ntc
      modifies this, pwr
      ensures State() == Obey(old(State()), order)
    {
      if order.Some? {
        var o := order.value;
        if o.lenMsg > 0 && o.topic == "dimmer" {
          var watts := Map(o.atoi, 0, 100, 0, MAX_POWER);
          reg := watts;
        } else if o.lenMsg > 0 && o.topic == "temperatura" {
        } else if o.lenMsg > 0 && o.topic == "kp" {
          pwr.kp := o.atof;
        } else if o.lenMsg > 0 && o.topic == "ki" {
          pwr.ki := o.atof;
        } else if o.lenMsg > 0 && o.topic == "kd" {
          pwr.kd := o.atof;
        } else if o.lenMsg > 0 && o.topic == "min" {
          pwr.min := Trunc(o.atof);
        } else if o.lenMsg > 0 && o.topic == "max" {
          pwr.max := Trunc(o.atof);
        }
      }
    }

    /** The counters are 8 and 16 bits wide. */
    method Tick()
      modifies this`countPower, this`countSend
      ensures State() == Count(old(State()))
    {
      countPower := (countPower + 1) % 0x100;
      countSend := (countSend + 1) % 0x1_0000;
    }

    /** One round of the loop of `dimmer_http`. */
    method Round(in0: Input)
      requires Valid()
      modifies this, pwr, ntc
      ensures Valid() && State() == Iterate(old(State()), in0)
    {
      IterateKeeps(State(), in0);
      Observe(in0);
      Correct();
      Accept(in0.order);
      Tick();
    }
  }
}
