/**
 The spin engine of the `Wheel` component: the guard that starts a spin, the
 randomised target angle, the per-frame eased update and the resolution of
 the winner when the animation ends.

 One animation frame is one call of `Animate` with the time elapsed since the
 spin started; `Math.random()` is the parameter `r` of `SpinWheel`.
 */
module Spin {
  import opened Wrappers
  import opened WheelGeometry
  import Sequences

  /** Length of a spin in milliseconds. */
  const Duration: real := 5000.0

  /** Whole turns every spin adds before the random part: `10 * Math.PI`. */
  const ExtraTurns: real := 5.0

  datatype Settings = Settings(removeAfterWin: bool, darkMode: bool)

  /**
   What the `animate` closure captured when the spin started: the start
   angle, the target angle, and the names and remove-after-win setting of
   that render.
   */
  datatype Session = Session(startAngle: real, finalAngle: real, names: seq<string>, removeAfterWin: bool)

  /** The component's state: `names`, `angle`, `settings`, and `isSpinning` as `spin.Some?`. */
  datatype Wheel = Wheel(names: seq<string>, angle: real, settings: Settings, spin: Option<Session>)
  {
    predicate IsSpinning()
    {
      spin.Some?
    }

    /**
     What every reachable state satisfies: at rest the angle is non-negative;
     during a spin the session starts at a non-negative angle, its target is
     5 to 6 turns further on, and it has at least two names.
     */
    predicate Valid()
    {
      match spin
      case None => angle >= 0.0
      case Some(s) =>
        && s.startAngle >= 0.0
        && ExtraTurns * T <= s.finalAngle - s.startAngle < (ExtraTurns + 1.0) * T
        && |s.names| >= 2
    }
  }

  /** The winner announced when a spin ends: its index in the session's names, and the name. */
  datatype Win = Win(index: nat, name: string)

  /** The outcome of one animation frame: the new state and the winner, if the spin ended. */
  datatype Frame = Frame(wheel: Wheel, winner: Option<Win>)

  /** The state on mount: angle 0, not spinning, remove-after-win on, light mode. */
  function Initial(names: seq<string>): (w: Wheel)
    ensures w.Valid() && !w.IsSpinning() && w.names == names
    ensures w.angle == 0.0
    ensures w.settings.removeAfterWin && !w.settings.darkMode
  {
    Wheel(names, 0.0, Settings(true, false), None)
  }

  /** `angle + 10 * Math.PI + Math.random() * 2 * Math.PI`. */
  function TargetAngle(angle: real, r: real): (a: real)
    requires 0.0 <= r < 1.0
    ensures ExtraTurns * T <= a - angle < (ExtraTurns + 1.0) * T
  {
    var a := angle + ExtraTurns * T + r * T;
    TurnFraction(angle, r, a, T);
    a
  }

  /** A fraction `r` of a turn of size `t` is less than one turn. */
  lemma TurnFraction(angle: real, r: real, a: real, t: real)
    requires 0.0 <= r < 1.0 && t > 0.0
    requires a == angle + ExtraTurns * t + r * t
    ensures ExtraTurns * t <= a - angle < (ExtraTurns + 1.0) * t
  {
    var u := r * t;
    assert 0.0 <= u < t by {
      MulMono(0.0, r, t);
      MulStrict(r, 1.0, t);
    }
  }

  /**
   `spinWheel`: refused while a spin runs or with fewer than two names, and
   then nothing changes. Otherwise a session starts from the current angle
   towards a target 5 to 6 turns further on; names, angle and settings are
   untouched until the frames run.
   */
  function SpinWheel(w: Wheel, r: real): (w': Wheel)
    requires 0.0 <= r < 1.0
    ensures w.IsSpinning() || |w.names| < 2 ==> w' == w
    ensures !w.IsSpinning() && |w.names| >= 2 ==>
      && w'.IsSpinning()
      && w'.names == w.names && w'.angle == w.angle && w'.settings == w.settings
      && w'.spin.value.startAngle == w.angle
      && ExtraTurns * T <= w'.spin.value.finalAngle - w.angle < (ExtraTurns + 1.0) * T
      && w'.spin.value.names == w.names
      && w'.spin.value.removeAfterWin == w.settings.removeAfterWin
    ensures w.Valid() ==> w'.Valid()
  {
    if w.IsSpinning() || |w.names| < 2 then w
    else
      w.(spin := Some(Session(w.angle, TargetAngle(w.angle, r), w.names, w.settings.removeAfterWin)))
  }

  /** `Math.min(elapsed / duration, 1)`: clamped from above only. */
  function Progress(elapsed: real): (p: real)
    ensures p <= 1.0
    ensures p == 1.0 <==> elapsed >= Duration
    ensures elapsed >= 0.0 ==> p >= 0.0
    ensures elapsed < 0.0 ==> p < 0.0
    ensures elapsed < Duration ==> p == elapsed / Duration
  {
    if elapsed / Duration < 1.0 then elapsed / Duration else 1.0
  }

  function Cube(x: real): real
  {
    x * x * x
  }

  /**
   Cubic ease-out `1 - (1 - p)^3`: within `[0, 1]` for progress in `[0, 1]`,
   reaching 1 only at progress 1, and below 0 for negative progress.
   */
  function Eased(p: real): (e: real)
    ensures 0.0 <= p <= 1.0 ==> 0.0 <= e <= 1.0
    ensures p <= 1.0 ==> (e == 1.0 <==> p == 1.0)
    ensures p < 0.0 ==> e < 0.0
  {
    CubeBounds(1.0 - p);
    1.0 - Cube(1.0 - p)
  }

  lemma CubeBounds(u: real)
    ensures 0.0 <= u <= 1.0 ==> 0.0 <= Cube(u) <= 1.0
    ensures u >= 0.0 ==> (Cube(u) == 0.0 <==> u == 0.0)
    ensures u > 1.0 ==> Cube(u) > 1.0
  {
    if 0.0 <= u <= 1.0 {
      assert u * u <= 1.0;
      assert u * u * u <= u * u;
    }
    if u > 1.0 {
      assert u * u > 1.0;
      assert u * u * u > u * u;
    }
    if u > 0.0 {
      assert u * u > 0.0;
    }
  }

  lemma CubeMonotone(u: real, v: real)
    requires v <= u
    ensures Cube(v) <= Cube(u)
  {
    var s := u * u + u * v + v * v;
    assert 4.0 * s == (2.0 * u + v) * (2.0 * u + v) + 3.0 * v * v;
    assert (2.0 * u + v) * (2.0 * u + v) >= 0.0;
    assert v * v >= 0.0;
    assert s >= 0.0;
    assert Cube(u) - Cube(v) == (u - v) * s;
  }

  /** The eased progress never goes backwards as time passes. */
  lemma EasedMonotone(e1: real, e2: real)
    requires e1 <= e2
    ensures Eased(Progress(e1)) <= Eased(Progress(e2))
  {
    CubeMonotone(1.0 - Progress(e1), 1.0 - Progress(e2));
  }

  /** Ease-out runs ahead of linear progress, strictly inside `(0, 1)`: the disc starts fast. */
  lemma EaseOutAhead(p: real)
    requires 0.0 <= p <= 1.0
    ensures Eased(p) >= p
    ensures 0.0 < p < 1.0 ==> Eased(p) > p
  {
    CubeBelow(1.0 - p);
  }

  /** On `[0, 1]` the cube lies below the identity, strictly inside. */
  lemma CubeBelow(u: real)
    requires 0.0 <= u <= 1.0
    ensures Cube(u) <= u
    ensures 0.0 < u < 1.0 ==> Cube(u) < u
  {
    if 0.0 < u < 1.0 {
      MulStrict(u, 1.0, u);
      MulStrict(u * u, 1.0, u);
    } else if u == 0.0 {
      assert Cube(u) == 0.0;
    }
  }

  /**
   Ease-out decelerates: the same step of progress `h` gains less eased
   progress later in the spin than earlier, strictly less for a real step
   taken strictly later.
   */
  lemma EaseOutDecelerates(p: real, q: real, h: real)
    requires 0.0 <= p <= q && 0.0 <= h && q + h <= 1.0
    ensures Eased(p + h) - Eased(p) >= Eased(q + h) - Eased(q)
    ensures p < q && h > 0.0 ==> Eased(p + h) - Eased(p) > Eased(q + h) - Eased(q)
  {
    var u := 1.0 - p;
    var v := 1.0 - q;
    assert 1.0 - (p + h) == u - h && 1.0 - (q + h) == v - h;
    CubeGap(u, v, h);
  }

  /** `Cube(x) - Cube(x - h)` grows with `x` once `x >= h`, strictly for `h > 0`. */
  lemma CubeGap(u: real, v: real, h: real)
    requires 0.0 <= h <= v <= u
    ensures Cube(u) - Cube(u - h) >= Cube(v) - Cube(v - h)
    ensures v < u && h > 0.0 ==> Cube(u) - Cube(u - h) > Cube(v) - Cube(v - h)
  {
    CubeStep(u, h);
    CubeStep(v, h);
    var b, c := u - v, u + v - h;
    StepGap(u, v, h, b, c);
    Product3(h, b, c);
    if v < u && h > 0.0 {
      assert b > 0.0 && c > 0.0;
      assert h * (b * c) > 0.0;
      var x := Cube(u) - Cube(u - h);
      var y := Cube(v) - Cube(v - h);
      assert x - y == 3.0 * (h * (b * c));
    }
  }

  lemma StepGap(u: real, v: real, h: real, b: real, c: real)
    requires b == u - v && c == u + v - h
    ensures h * (3.0 * u * u - 3.0 * u * h + h * h) - h * (3.0 * v * v - 3.0 * v * h + h * h)
      == 3.0 * (h * (b * c))
  {
  }

  lemma Product3(a: real, b: real, c: real)
    requires a >= 0.0 && b >= 0.0 && c >= 0.0
    ensures a * (b * c) >= 0.0
    ensures a > 0.0 && b > 0.0 && c > 0.0 ==> a * (b * c) > 0.0
  {
    if a > 0.0 && b > 0.0 {
      MulMono(0.0, c, b);
      MulMono(0.0, b * c, a);
      if c > 0.0 {
        MulStrict(0.0, c, b);
        MulStrict(0.0, b * c, a);
      }
    }
  }

  lemma CubeStep(x: real, h: real)
    ensures Cube(x) - Cube(x - h) == h * (3.0 * x * x - 3.0 * x * h + h * h)
  {
  }

  /**
   `angle + (finalAngle - angle) * easedProgress`: between the start and the
   target for a non-negative elapsed time, exactly the target once the
   duration has passed (and only then), and behind the start when the frame's
   timestamp precedes the spin's start. While the spin runs the disc is
   strictly ahead of where a constant-speed turn would have brought it.
   */
  function FrameAngle(start: real, final: real, elapsed: real): (a: real)
    requires start < final
    ensures elapsed >= 0.0 ==> start <= a <= final
    ensures a == final <==> elapsed >= Duration
    ensures elapsed < 0.0 ==> a < start
    ensures 0.0 < elapsed < Duration ==> a > start + (final - start) * (elapsed / Duration)
  {
    var e := Eased(Progress(elapsed));
    var d := final - start;
    var a := start + d * e;
    Lerp(start, d, e, a);
    AheadOfLinear(start, d, elapsed, a);
    a
  }

  /** Eased interpolation over a positive distance runs ahead of linear interpolation. */
  lemma AheadOfLinear(start: real, d: real, elapsed: real, a: real)
    requires d > 0.0 && a == start + d * Eased(Progress(elapsed))
    ensures 0.0 < elapsed < Duration ==> a > start + d * (elapsed / Duration)
  {
    if 0.0 < elapsed < Duration {
      var p := elapsed / Duration;
      assert Progress(elapsed) == p && 0.0 < p < 1.0;
      EaseOutAhead(p);
      MulStrict(p, Eased(p), d);
      assert d * p == p * d && d * Eased(p) == Eased(p) * d;
    }
  }

  /** Moving from `start` by a fraction `e` of a positive distance `d`. */
  lemma Lerp(start: real, d: real, e: real, a: real)
    requires d > 0.0
    requires a == start + d * e
    ensures 0.0 <= e <= 1.0 ==> start <= a <= start + d
    ensures a == start + d <==> e == 1.0
    ensures e < 0.0 ==> a < start
  {
    assert d * e == e * d;
    if 0.0 <= e {
      MulMono(0.0, e, d);
    }
    if e <= 1.0 {
      MulMono(e, 1.0, d);
    }
    if e < 1.0 {
      MulStrict(e, 1.0, d);
    }
    if e > 1.0 {
      MulStrict(1.0, e, d);
    }
    if e < 0.0 {
      MulStrict(e, 0.0, d);
    }
  }

  /** The disc never turns backwards during a spin once its frames run. */
  lemma FrameAngleMonotone(start: real, final: real, e1: real, e2: real)
    requires start < final && e1 <= e2
    ensures FrameAngle(start, final, e1) <= FrameAngle(start, final, e2)
  {
    EasedMonotone(e1, e2);
    LerpMonotone(start, final, Eased(Progress(e1)), Eased(Progress(e2)));
  }

  /**
   The disc decelerates: over the same span of time `h` it turns no less
   earlier in the spin than later, and strictly less later for a non-empty
   span started strictly later.
   */
  lemma FrameDecelerates(start: real, final: real, t1: real, t2: real, h: real)
    requires start < final
    requires 0.0 <= t1 <= t2 && 0.0 <= h && t2 + h <= Duration
    ensures FrameAngle(start, final, t1 + h) - FrameAngle(start, final, t1)
         >= FrameAngle(start, final, t2 + h) - FrameAngle(start, final, t2)
    ensures t1 < t2 && h > 0.0 ==>
      FrameAngle(start, final, t1 + h) - FrameAngle(start, final, t1)
      > FrameAngle(start, final, t2 + h) - FrameAngle(start, final, t2)
  {
    var p, q, k := t1 / Duration, t2 / Duration, h / Duration;
    assert (t1 + h) / Duration == p + k && (t2 + h) / Duration == q + k;
    EaseOutDecelerates(p, q, k);
    var d := final - start;
    var x1, y1, x2, y2 := Eased(p), Eased(p + k), Eased(q), Eased(q + k);
    var a1, b1 := FrameAngle(start, final, t1), FrameAngle(start, final, t1 + h);
    var a2, b2 := FrameAngle(start, final, t2), FrameAngle(start, final, t2 + h);
    FrameAt(start, final, d, t1, x1, a1);
    FrameAt(start, final, d, t1 + h, y1, b1);
    FrameAt(start, final, d, t2, x2, a2);
    FrameAt(start, final, d, t2 + h, y2, b2);
    ScaleGap(start, d, x1, y1, x2, y2, a1, b1, a2, b2);
  }

  /** Within the duration, the frame angle is the start moved by the eased elapsed fraction. */
  lemma FrameAt(start: real, final: real, d: real, elapsed: real, e: real, a: real)
    requires start < final && d == final - start && 0.0 <= elapsed <= Duration
    requires e == Eased(elapsed / Duration) && a == FrameAngle(start, final, elapsed)
    ensures a == start + d * e
  {
    ProgressWithin(elapsed);
  }

  /** Within the duration, progress is the elapsed fraction of it. */
  lemma ProgressWithin(elapsed: real)
    requires 0.0 <= elapsed <= Duration
    ensures Progress(elapsed) == elapsed / Duration
  {
  }

  /** Scaling by a positive distance keeps the order of two gaps, strictly too. */
  lemma ScaleGap(start: real, d: real, x1: real, y1: real, x2: real, y2: real,
                 a1: real, b1: real, a2: real, b2: real)
    requires d > 0.0 && y1 - x1 >= y2 - x2
    requires a1 == start + d * x1 && b1 == start + d * y1
    requires a2 == start + d * x2 && b2 == start + d * y2
    ensures b1 - a1 >= b2 - a2
    ensures y1 - x1 > y2 - x2 ==> b1 - a1 > b2 - a2
  {
    assert b1 - a1 == (y1 - x1) * d && b2 - a2 == (y2 - x2) * d;
    MulMono(y2 - x2, y1 - x1, d);
    if y1 - x1 > y2 - x2 {
      MulStrict(y2 - x2, y1 - x1, d);
    }
  }

  lemma LerpMonotone(start: real, final: real, x1: real, x2: real)
    requires start < final && x1 <= x2
    ensures start + (final - start) * x1 <= start + (final - start) * x2
  {
    MulMono(x1, x2, final - start);
  }

  /**
   The frame that ends the spin of `w`: the angle sits exactly on the target,
   the spin is over, the settings are untouched, and the winner is the name
   whose slice lies at canvas angle 0 (3 o'clock). With remove-after-win that
   name's position is dropped from the names the spin started with; otherwise
   the current names stay.
   */
  ghost predicate Landed(w: Wheel, f: Frame)
    requires w.IsSpinning()
  {
    var s := w.spin.value;
    && !f.wheel.IsSpinning()
    && f.wheel.angle == s.finalAngle
    && f.wheel.settings == w.settings
    && f.winner.Some?
    && f.winner.value.index < |s.names|
    && f.winner.value.name == s.names[f.winner.value.index]
    && Contains(SliceFor(f.winner.value.index, |s.names|), DiscAngleAtZero(s.finalAngle))
    && (s.removeAfterWin ==>
          f.wheel.names == s.names[..f.winner.value.index] + s.names[f.winner.value.index + 1..])
    && (!s.removeAfterWin ==> f.wheel.names == w.names)
  }

  /**
   One animation frame. Without a spin it changes nothing. Before the
   duration has passed it only moves the angle; once it has, the spin has
   `Landed`.
   */
  function Animate(w: Wheel, elapsed: real): (f: Frame)
    requires w.Valid()
    ensures f.wheel.Valid()
    ensures !w.IsSpinning() ==> f == Frame(w, None)
    ensures w.IsSpinning() && elapsed < Duration ==>
      && f.winner == None
      && f.wheel.spin == w.spin && f.wheel.names == w.names && f.wheel.settings == w.settings
      && (elapsed >= 0.0 ==> w.spin.value.startAngle <= f.wheel.angle < w.spin.value.finalAngle)
    ensures w.IsSpinning() ==>
      f.wheel.angle == FrameAngle(w.spin.value.startAngle, w.spin.value.finalAngle, elapsed)
    ensures w.IsSpinning() && elapsed >= Duration ==> Landed(w, f)
  {
    match w.spin
    case None => Frame(w, None)
    case Some(s) =>
      var a := FrameAngle(s.startAngle, s.finalAngle, elapsed);
      if Progress(elapsed) < 1.0 then
        Frame(w.(angle := a), None)
      else
        var i := WinnerIndex(a, |s.names|);
        var names := if s.removeAfterWin then Sequences.RemoveAt(s.names, i) else w.names;
        Frame(Wheel(names, a, w.settings, None), Some(Win(i, s.names[i])))
  }

  /** `setNames` from outside the spin engine: the running session keeps its own copy. */
  function SetNames(w: Wheel, names: seq<string>): (w': Wheel)
    ensures w'.names == names
    ensures w'.angle == w.angle && w'.settings == w.settings && w'.spin == w.spin
    ensures w.Valid() ==> w'.Valid()
  {
    w.(names := names)
  }

  /** The "Remove Winner" / "Keep Winner" button; a running spin keeps the value it captured. */
  function ToggleRemoveAfterWin(w: Wheel): (w': Wheel)
    ensures w'.settings.removeAfterWin == !w.settings.removeAfterWin
    ensures w'.settings.darkMode == w.settings.darkMode
    ensures w'.names == w.names && w'.angle == w.angle && w'.spin == w.spin
    ensures w.Valid() ==> w'.Valid()
  {
    w.(settings := w.settings.(removeAfterWin := !w.settings.removeAfterWin))
  }

  /**
   Every name can win: from any resting state with at least two names, for
   each index some random draw `r` in `[0, 1)` makes the spin end on it.
   */
  lemma EveryIndexCanWin(w: Wheel, i: nat)
    requires w.Valid() && !w.IsSpinning() && i < |w.names|
    requires |w.names| >= 2
    ensures exists r :: 0.0 <= r < 1.0 && Animate(SpinWheel(w, r), Duration).winner == Some(Win(i, w.names[i]))
  {
    var n := |w.names|;
    var r := AimAt(w.angle, LabelAngle(i, n));
    WinnerIsUniqueSlice(TargetAngle(w.angle, r), n, i);
    assert Animate(SpinWheel(w, r), Duration).winner == Some(Win(i, w.names[i]));
  }

  /** A random draw that makes the spin from `start` stop with disc angle `x` at canvas angle 0. */
  lemma AimAt(start: real, x: real) returns (r: real)
    requires 0.0 <= x < T
    ensures 0.0 <= r < 1.0
    ensures DiscAngleAtZero(TargetAngle(start, r)) == x
  {
    var m0 := Mod(-start);
    var d := Mod(m0 - x);
    r := d / T;
    DivBounds(d, T);
    DivMul(d, T);
    var final := TargetAngle(start, r);
    assert final == start + ExtraTurns * T + d;
    var q0 := (-start / T).Floor;
    var q1 := ((m0 - x) / T).Floor;
    ModSplit(-start);
    ModSplit(m0 - x);
    TurnSum(q0, q1, T);
    assert -final == (q0 + q1 - 5) as real * T + x;
    ModOfShift(-final, q0 + q1 - 5, x);
  }

  lemma TurnSum(q0: int, q1: int, t: real)
    ensures (q0 + q1 - 5) as real * t == q0 as real * t + q1 as real * t - 5.0 * t
  {
  }

  /**
   The angle is never normalised: the next spin starts from the raw target of
   the last one, so the angle keeps growing by at least five turns per spin.
   */
  lemma NextSpinStartsWhereLastEnded(w: Wheel, elapsed: real, r: real)
    requires w.Valid() && w.IsSpinning() && elapsed >= Duration && 0.0 <= r < 1.0
    requires |Animate(w, elapsed).wheel.names| >= 2
    ensures var next := SpinWheel(Animate(w, elapsed).wheel, r).spin.value;
            && next.startAngle == w.spin.value.finalAngle
            && next.finalAngle >= w.spin.value.startAngle + 2.0 * ExtraTurns * T
  {
  }

  /** The interactions the wheel reacts to. */
  datatype Event =
    | Click(r: real)                 // the Spin button, with the draw of `Math.random()`
    | Tick(elapsed: real)            // an animation frame, `elapsed` ms after the spin started
    | Edit(names: seq<string>)       // `setNames` from the parent component or an import
    | ToggleRemove                   // the remove-after-win button

  predicate WellFormed(e: Event)
  {
    e.Click? ==> 0.0 <= e.r < 1.0
  }

  /** A click the guard of `spinWheel` lets through. */
  predicate Accepts(w: Wheel, e: Event)
  {
    e.Click? && !w.IsSpinning() && |w.names| >= 2
  }

  /**
   One event. Every event keeps the state valid. An accepted click starts a
   spin; only a frame that ends a running spin announces a winner; every
   other event leaves the spinning flag as it was.
   */
  function Step(w: Wheel, e: Event): (f: Frame)
    requires w.Valid() && WellFormed(e)
    ensures f.wheel.Valid()
    ensures Accepts(w, e) ==> f.wheel.IsSpinning() && f.winner == None
    ensures f.winner.Some? ==> e.Tick? && w.IsSpinning() && !f.wheel.IsSpinning()
    ensures !Accepts(w, e) && f.winner == None ==> f.wheel.IsSpinning() == w.IsSpinning()
  {
    match e
    case Click(r) => Frame(SpinWheel(w, r), None)
    case Tick(elapsed) => Animate(w, elapsed)
    case Edit(names) => Frame(SetNames(w, names), None)
    case ToggleRemove => Frame(ToggleRemoveAfterWin(w), None)
  }

  datatype Trace = Trace(wheel: Wheel, winners: seq<Win>)

  /** The clicks of a run that the guard lets through, each in the state it meets. */
  function CountAccepted(w: Wheel, es: seq<Event>): nat
    requires w.Valid()
    requires forall k :: 0 <= k < |es| ==> WellFormed(es[k])
    decreases |es|
  {
    if es == [] then 0
    else (if Accepts(w, es[0]) then 1 else 0) + CountAccepted(Step(w, es[0]).wheel, es[1..])
  }

  /**
   A run of events keeps the state valid, and every accepted click is
   accounted for exactly once: it either announced one winner or is the spin
   still running at the end. So winners so far plus a spin still running
   equal the accepted clicks plus the spin already running at the beginning.
   */
  function Run(w: Wheel, es: seq<Event>): (t: Trace)
    requires w.Valid()
    requires forall k :: 0 <= k < |es| ==> WellFormed(es[k])
    ensures t.wheel.Valid()
    ensures |t.winners| + (if t.wheel.IsSpinning() then 1 else 0)
            == CountAccepted(w, es) + (if w.IsSpinning() then 1 else 0)
    decreases |es|
  {
    if es == [] then Trace(w, [])
    else
      var f := Step(w, es[0]);
      var t := Run(f.wheel, es[1..]);
      var first := if f.winner.Some? then [f.winner.value] else [];
      Trace(t.wheel, first + t.winners)
  }
}
