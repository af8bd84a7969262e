/** The incremental PID controller of src/pid.c. Gains are reals, errors mathematical integers. */
module Pid {
  import opened CArith

  datatype PidState = PidState(kp: real, ki: real, kd: real,
                               error: int, cumError: int, lastError: int, max: int, min: int)

  function Weighted(kp: real, ki: real, kd: real, error: int, cumError: int, rateError: int): real {
    kp * error as real + ki * cumError as real + kd * rateError as real
  }

  /** The controller output before it is limited. */
  function RawOutput(p: PidState, error: int): int {
    Trunc(Weighted(p.kp, p.ki, p.kd, error, p.cumError + error, error - p.lastError))
  }

  function Limit(p: PidState, inc: int): int {
    if inc > p.max then p.max
    else if inc < p.min then p.min
    else inc
  }

  function Output(p: PidState, setValue: int, actualValue: int): int {
    Limit(p, RawOutput(p, setValue - actualValue))
  }

  function AfterPid(p: PidState, setValue: int, actualValue: int): PidState {
    var error := setValue - actualValue;
    p.(error := error, cumError := p.cumError + error, lastError := error)
  }

  /** The answer to the weighted sum `x`: its integer part, or the limit that passes. */
  ghost predicate Answers(x: real, max: int, min: int, inc: int) {
    exists n :: TowardZero(x, n) && inc == if n > max then max else if n < min then min else n
  }

  /** The answer to an error, the sum of all errors and the change of the error, each with its gain. */
  ghost predicate Responds(kp: real, ki: real, kd: real, e: int, sum: int, rate: int, max: int, min: int, inc: int) {
    Answers(kp * e as real + ki * sum as real + kd * rate as real, max, min, inc)
  }

  lemma WeighsAll(p: PidState, e: int, sum: int, rate: int)
    ensures Responds(p.kp, p.ki, p.kd, e, sum, rate, p.max, p.min,
                     Limit(p, Trunc(Weighted(p.kp, p.ki, p.kd, e, sum, rate))))
  {
    var x := Weighted(p.kp, p.ki, p.kd, e, sum, rate);
    TruncIsTowardZero(x);
    assert TowardZero(x, Trunc(x));
  }

  lemma OutputResponds(p: PidState, setValue: int, actualValue: int)
    ensures var e := setValue - actualValue;
            Responds(p.kp, p.ki, p.kd, e, p.cumError + e, e - p.lastError, p.max, p.min,
                     Output(p, setValue, actualValue))
  {
    var e := setValue - actualValue;
    WeighsAll(p, e, p.cumError + e, e - p.lastError);
  }

  // ---------- A run of the controller ----------

  /** One call: the value wanted and the value there is. */
  datatype Ask = Ask(setValue: int, actualValue: int)

  function AskError(ask: Ask): int {
    ask.setValue - ask.actualValue
  }

  function SumOfErrors(asks: seq<Ask>): int {
    if asks == [] then 0 else SumOfErrors(asks[..|asks| - 1]) + AskError(asks[|asks| - 1])
  }

  function AfterAsks(p: PidState, asks: seq<Ask>): PidState {
    if asks == [] then p
    else
      var ask := asks[|asks| - 1];
      AfterPid(AfterAsks(p, asks[..|asks| - 1]), ask.setValue, ask.actualValue)
  }

  lemma {:induction false} StateAfterAsks(p: PidState, asks: seq<Ask>)
    ensures var e := if asks == [] then p.lastError else AskError(asks[|asks| - 1]);
            AfterAsks(p, asks) == p.(error := if asks == [] then p.error else e,
                                     cumError := p.cumError + SumOfErrors(asks), lastError := e)
  {
    if asks != [] {
      StateAfterAsks(p, asks[..|asks| - 1]);
    }
  }

  /** In every run of a new controller, the answer to call `n` is the integer part, within the
      limits, of kp times its error, ki times the sum of the errors so far and kd times the change
      from the error before. */
  lemma NthOutput(kp: real, ki: real, kd: real, max: int, min: int, asks: seq<Ask>, n: nat)
    requires n < |asks|
    ensures var e, last := AskError(asks[n]), if n == 0 then 0 else AskError(asks[n - 1]);
            Responds(kp, ki, kd, e, SumOfErrors(asks[..n + 1]), e - last, max, min,
                     Output(AfterAsks(PidState(kp, ki, kd, 0, 0, 0, max, min), asks[..n]),
                            asks[n].setValue, asks[n].actualValue))
  {
    var p := PidState(kp, ki, kd, 0, 0, 0, max, min);
    StateAfterAsks(p, asks[..n]);
    OutputResponds(AfterAsks(p, asks[..n]), asks[n].setValue, asks[n].actualValue);
    assert asks[..n + 1][..n] == asks[..n];
  }

  class PidInc {
    var kp: real
    var ki: real
    var kd: real
    var error: int
    var cumError: int
    var lastError: int
    var max: int
    var min: int

    constructor (kp: real, ki: real, kd: real, max: int, min: int)
      ensures State() == PidState(kp, ki, kd, 0, 0, 0, max, min)
    {
      this.kp, this.ki, this.kd := kp, ki, kd;
      error, cumError, lastError := 0, 0, 0;
      this.max, this.min := max, min;
    }

    ghost function State(): PidState
      reads this
    {
      PidState(kp, ki, kd, error, cumError, lastError, max, min)
    }

    /** `PID` */
    method Run(setValue: int, actualValue: int) returns (inc: int)
      modifies this
      ensures error == lastError == setValue - actualValue && cumError == old(cumError) + error
      ensures Responds(kp, ki, kd, error, cumError, error - old(lastError), max, min, inc)
      ensures State() == AfterPid(old(State()), setValue, actualValue)
      ensures inc == Output(old(State()), setValue, actualValue)
    {
      OutputResponds(State(), setValue, actualValue);
      error := setValue - actualValue;
      cumError := cumError + error;
      var rateError := error - lastError;
      inc := Trunc(Weighted(kp, ki, kd, error, cumError, rateError));
      lastError := error;
      if inc > max {
        inc := max;
      } else if inc < min {
        inc := min;
      }
    }
  }

  lemma OutputWithin(p: PidState, setValue: int, actualValue: int)
    ensures p.min <= p.max ==> p.min <= Output(p, setValue, actualValue) <= p.max
  {
  }

  // ---------- The controller pushes against a wound-up integral ----------

  lemma ScaledAtLeast(k: real, x: real, y: real)
    requires k >= 0.0 && x >= y
    ensures k * x >= k * y
  {
    assert k * (x - y) >= 0.0;
  }

  lemma ScaledMore(k: real, x: real, y: real)
    requires k > 0.0 && x > y
    ensures k * x > k * y
  {
    assert k * (x - y) > 0.0;
  }

  lemma SumAtLeastOne(x: real, y: real, z: real, px: real, py: real, pz: real)
    requires x >= -px && y > py && z >= -2.0 * pz && py == px + 2.0 * pz + 1.0
    ensures x + y + z >= 1.0
  {
  }

  /** An integral `c` beyond `t` outweighs error terms that are bounded by `b`. */
  lemma IntegralOutweighs(kp: real, ki: real, kd: real, b: real, t: real, e: real, c: real, rate: real)
    requires kp >= 0.0 && ki > 0.0 && kd >= 0.0 && ki * t == kp * b + 2.0 * (kd * b) + 1.0
    requires e >= -b && rate >= -b - b && c > t
    ensures kp * e + ki * c + kd * rate >= 1.0
  {
    ScaledAtLeast(kp, e, -b);
    ScaledAtLeast(kd, rate, -b - b);
    ScaledMore(ki, c, t);
    SumAtLeastOne(kp * e, ki * c, kd * rate, kp * b, ki * t, kd * b);
  }

  lemma TruncAtLeastOne(x: real)
    ensures x >= 1.0 ==> Trunc(x) >= 1
    ensures x <= -1.0 ==> Trunc(x) <= -1
  {
    if x <= -1.0 {
      assert (-x).Floor >= 1;
    }
  }

  /** Where the integral alone outweighs everything the error terms can do. */
  ghost predicate Outweighs(p: PidState, b: real, t: real) {
    p.kp >= 0.0 && p.ki > 0.0 && p.kd >= 0.0 && b >= 0.0 && p.ki * t == p.kp * b + 2.0 * (p.kd * b) + 1.0
  }

  lemma WeightedNegates(kp: real, ki: real, kd: real, e: int, c: int, rate: int)
    ensures Weighted(kp, ki, kd, -e, -c, -rate) == -Weighted(kp, ki, kd, e, c, rate)
  {
    assert (-e) as real == -(e as real) && (-c) as real == -(c as real) && (-rate) as real == -(rate as real);
  }

  lemma WeightedAtLeastOne(p: PidState, b: real, t: real, e: int, c: int, rate: int)
    requires Outweighs(p, b, t) && e as real >= -b && rate as real >= -b - b && c as real > t
    ensures Weighted(p.kp, p.ki, p.kd, e, c, rate) >= 1.0
  {
    IntegralOutweighs(p.kp, p.ki, p.kd, b, t, e as real, c as real, rate as real);
  }

  /** Beyond `t` the integral decides the sign of the output. */
  lemma PushesBack(p: PidState, b: real, t: real, setValue: int, actualValue: int)
    requires Outweighs(p, b, t) && p.max >= 1 && p.min <= -1
    requires -b <= p.lastError as real <= b && -b <= (setValue - actualValue) as real <= b
    ensures AfterPid(p, setValue, actualValue).cumError as real > t ==> Output(p, setValue, actualValue) >= 1
    ensures (AfterPid(p, setValue, actualValue).cumError as real) < -t ==> Output(p, setValue, actualValue) <= -1
  {
    var e, c := setValue - actualValue, p.cumError + (setValue - actualValue);
    var rate := e - p.lastError;
    if c as real > t {
      WeightedAtLeastOne(p, b, t, e, c, rate);
    } else if (c as real) < -t {
      WeightedAtLeastOne(p, b, t, -e, -c, -rate);
      WeightedNegates(p.kp, p.ki, p.kd, e, c, rate);
    }
    TruncAtLeastOne(Weighted(p.kp, p.ki, p.kd, e, c, rate));
  }
}
