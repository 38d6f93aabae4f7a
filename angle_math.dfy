/**
 * The numeric helpers of the interpolation engine, over `real` instead of
 * `f32`: linear interpolation and wrap-around angle interpolation in degrees
 * and radians.
 */
module AngleMath {

  /** The exact value of Rust's `f32::consts::PI` (13176795 / 2^22). */
  const PI_F32: real := 3.1415927410125732421875

  /** `lerp`: `(end - start) * t + start`; `t` is not clamped. */
  function Lerp(start: real, end: real, t: real): (r: real)
    ensures t == 0.0 ==> r == start
    ensures t == 1.0 ==> r == end
    ensures start == end ==> r == start
  {
    (end - start) * t + start
  }

  /**
   * The shared shape of `degree_lerp` and `radian_lerp` for a full turn of
   * `turn`: when the ends are more than half a turn apart, move `end` by one
   * turn towards `start`, interpolate, and bring the result back by one turn
   * if it left `[0, turn)` on that side.
   */
  function AngleLerp(start: real, end: real, t: real, turn: real): (r: real)
    ensures 0.0 <= start < turn ==> (t == 0.0 ==> r == start)
    ensures 0.0 <= start < turn && 0.0 <= end < turn ==> (t == 1.0 ==> r == end)
  {
    var diff := end - start;
    if diff < -(turn / 2.0) then
      var result := Lerp(start, end + turn, t);
      if result >= turn then result - turn else result
    else if diff > turn / 2.0 then
      var result := Lerp(start, end - turn, t);
      if result < 0.0 then result + turn else result
    else
      Lerp(start, end, t)
  }

  /** `degree_lerp`: a full turn is 360. */
  function DegreeLerp(start: real, end: real, t: real): (r: real)
    ensures 0.0 <= start < 360.0 ==> (t == 0.0 ==> r == start)
    ensures 0.0 <= start < 360.0 && 0.0 <= end < 360.0 ==> (t == 1.0 ==> r == end)
  {
    AngleLerp(start, end, t, 360.0)
  }

  /** `radian_lerp`: a full turn is `PI * 2.` with the `f32` value of PI. */
  function RadianLerp(start: real, end: real, t: real): (r: real)
    ensures 0.0 <= start < 2.0 * PI_F32 ==> (t == 0.0 ==> r == start)
    ensures 0.0 <= start < 2.0 * PI_F32 && 0.0 <= end < 2.0 * PI_F32 ==> (t == 1.0 ==> r == end)
  {
    AngleLerp(start, end, t, 2.0 * PI_F32)
  }

  /** The signed difference `end - start` moved by at most one turn onto the short arc. */
  function ShortArc(start: real, end: real, turn: real): (d: real)
    requires turn > 0.0
    requires -turn < end - start < turn
    ensures -(turn / 2.0) <= d <= turn / 2.0
    ensures d == end - start || d == end - start + turn || d == end - start - turn
  {
    var diff := end - start;
    if diff < -(turn / 2.0) then diff + turn
    else if diff > turn / 2.0 then diff - turn
    else diff
  }

  /** `lerp` reproduces its ends at `t = 0` and `t = 1`, and a constant for equal ends. */
  lemma LerpEndpoints(start: real, end: real, t: real)
    ensures Lerp(start, end, 0.0) == start
    ensures Lerp(start, end, 1.0) == end
    ensures Lerp(start, start, t) == start
    ensures Lerp(10.0, 20.0, 0.5) == 15.0
  {
  }

  /** For `t` in `[0, 1]`, `lerp` stays between its two ends. */
  lemma LerpBetween(start: real, end: real, t: real)
    requires 0.0 <= t <= 1.0
    ensures start <= end ==> start <= Lerp(start, end, t) <= end
    ensures end <= start ==> end <= Lerp(start, end, t) <= start
  {
    var d := end - start;
    assert Lerp(start, end, t) == d * t + start;
    if start <= end {
      MulBounds(d, t);
    } else {
      MulBounds(-d, t);
      assert d * t == -((-d) * t);
    }
  }

  lemma MulBounds(d: real, t: real)
    requires d >= 0.0 && 0.0 <= t <= 1.0
    ensures 0.0 <= d * t <= d
  {
    assert d * t <= d * 1.0 by {
      assert d * (1.0 - t) >= 0.0;
    }
  }

  /** When the ends are at most half a turn apart, the angle helpers are plain `lerp`. */
  lemma AngleLerpShortIsLerp(start: real, end: real, t: real, turn: real)
    requires -(turn / 2.0) <= end - start <= turn / 2.0
    ensures AngleLerp(start, end, t, turn) == Lerp(start, end, t)
  {
  }

  /**
   * Shortest path: the result is `start + ShortArc * t` up to one full turn,
   * so the interpolation never goes the long way round.
   */
  lemma AngleLerpFollowsShortArc(start: real, end: real, t: real, turn: real)
    requires turn > 0.0
    requires -turn < end - start < turn
    ensures var r, p := AngleLerp(start, end, t, turn), start + ShortArc(start, end, turn) * t;
            r == p || r == p - turn || r == p + turn
  {
  }

  /**
   * For angles in `[0, turn)` and `t` in `[0, 1]` the result stays in
   * `[0, turn)`; `t = 0` gives `start` and `t = 1` gives `end` exactly.
   */
  lemma AngleLerpCanonical(start: real, end: real, t: real, turn: real)
    requires turn > 0.0
    requires 0.0 <= start < turn && 0.0 <= end < turn
    requires 0.0 <= t <= 1.0
    ensures 0.0 <= AngleLerp(start, end, t, turn) < turn
    ensures AngleLerp(start, end, 0.0, turn) == start
    ensures AngleLerp(start, end, 1.0, turn) == end
  {
    var diff := end - start;
    if diff < -(turn / 2.0) {
      LerpBetween(start, end + turn, t);
    } else if diff > turn / 2.0 {
      LerpBetween(start, end - turn, t);
    } else {
      LerpBetween(start, end, t);
    }
  }

  /** Crossing the 0/360 boundary: halfway from 350 to 10 degrees is 0, not 180. */
  lemma DegreeLerpWrapExample()
    ensures DegreeLerp(350.0, 10.0, 0.5) == 0.0
    ensures DegreeLerp(10.0, 350.0, 0.5) == 0.0
  {
  }

  /** The radian helper follows the degree helper's branches, scaled to a turn of `2 * PI`. */
  lemma RadianLerpCanonical(start: real, end: real, t: real)
    requires 0.0 <= start < 2.0 * PI_F32 && 0.0 <= end < 2.0 * PI_F32
    requires 0.0 <= t <= 1.0
    ensures 0.0 <= RadianLerp(start, end, t) < 2.0 * PI_F32
    ensures RadianLerp(start, end, 0.0) == start && RadianLerp(start, end, 1.0) == end
  {
    AngleLerpCanonical(start, end, t, 2.0 * PI_F32);
  }
}
