/** C's arithmetic where Dafny's differs: division and conversion to int cut off the fraction. */
module CArith {

  /** a / b in C. */
  function Div(a: int, b: int): int
    requires b != 0
  {
    if (a >= 0) == (b > 0) then Abs(a) / Abs(b) else -(Abs(a) / Abs(b))
  }

  function Abs(a: int): nat {
    if a < 0 then -a else a
  }

  /** The quotient is rounded toward zero: what is left over is smaller than the divisor and has
      the sign of the dividend. */
  lemma DivTruncates(a: int, b: int)
    requires b != 0
    ensures Abs(a - b * Div(a, b)) < Abs(b)
    ensures a >= 0 ==> a - b * Div(a, b) >= 0
    ensures a <= 0 ==> a - b * Div(a, b) <= 0
  {
    var q, r := Abs(a) / Abs(b), Abs(a) % Abs(b);
    assert Abs(a) == Abs(b) * q + r;
    if a >= 0 {
      assert b * Div(a, b) == Abs(b) * q;
    } else {
      assert b * Div(a, b) == -(Abs(b) * q);
    }
  }

  /** (int)x in C. */
  function Trunc(x: real): int {
    if x >= 0.0 then x.Floor else -((-x).Floor)
  }

  /** `n` is `x` without its fraction. */
  predicate TowardZero(x: real, n: int) {
    if x >= 0.0 then n as real <= x < (n + 1) as real else (n - 1) as real < x <= n as real
  }

  lemma TruncIsTowardZero(x: real)
    ensures forall n :: TowardZero(x, n) <==> n == Trunc(x)
  {
  }

  /** `map` of src/helper.c */
  function Map(val: int, inMin: int, inMax: int, outMin: int, outMax: int): (r: int)
    requires inMin != inMax
    ensures outMin <= outMax ==> outMin <= r <= outMax
  {
    var exit := Div((val - inMin) * (outMax - outMin), inMax - inMin) + outMin;
    if exit < outMin then outMin
    else if exit > outMax then outMax
    else exit
  }

  /** The quotient of a distance `x` of `d`, scaled to `w`, with the signs of either direction. */
  lemma Scaled(x: int, d: int, w: int) returns (q: int)
    requires d > 0 && w >= 0
    ensures Div(x * w, d) == q && Div(-(x * w), -d) == q
    ensures x >= 0 ==> 0 <= x * w - q * d < d
    ensures x <= 0 ==> q <= 0
    ensures x >= d ==> q >= w
  {
    q := Div(x * w, d);
    if x >= 0 {
      assert x * w >= 0;
      assert q == x * w / d;
      AtLeast(x, d, w, q);
    } else {
      assert x * w <= 0;
    }
  }

  lemma Monotone(a: int, b: int, d: int)
    requires d >= 0
    ensures a >= b ==> a * d >= b * d
  {
    assert a >= b ==> (a - b) * d >= 0;
  }

  lemma AtLeast(x: int, d: int, w: int, q: int)
    requires d > 0 && w >= 0 && x * w - q * d < d
    ensures x >= d ==> q >= w
  {
    Monotone(x, d, w);
    Monotone(w, q + 1, d);
  }

  /** A value between the input limits, which may be given in either order, is rescaled in
      proportion and rounded toward `outMin`; one beyond them gives the output limit. */
  lemma MapIsProportional(val: int, inMin: int, inMax: int, outMin: int, outMax: int)
    requires inMin != inMax && outMin <= outMax
    ensures var r := Map(val, inMin, inMax, outMin, outMax);
            var d := Abs(inMax - inMin);
            var x := if inMin < inMax then val - inMin else inMin - val;
            if x <= 0 then r == outMin
            else if x >= d then r == outMax
            else 0 <= x * (outMax - outMin) - (r - outMin) * d < d
  {
    var d := Abs(inMax - inMin);
    var x := if inMin < inMax then val - inMin else inMin - val;
    var q := Scaled(x, d, outMax - outMin);
    assert (val - inMin) * (outMax - outMin)
           == if inMin < inMax then x * (outMax - outMin) else -(x * (outMax - outMin));
    if 0 < x < d {
      Inside(x, d, outMax - outMin, q);
    }
  }

  lemma Inside(x: int, d: int, w: int, q: int)
    requires 0 < x < d && w >= 0 && 0 <= x * w - q * d < d
    ensures 0 <= q <= w
  {
    Monotone(x, 0, w);
    Monotone(d, x, w);
    Monotone(q, w + 1, d);
    Monotone(0, q + 1, d);
  }
}
