/**
 The geometry of the wheel: how `drawWheel` lays the names out as equal
 slices of the disc, and how the spin's final angle is turned back into the
 index of the winning name.

 Angles are reals in radians. The full turn `2 * Math.PI` is the abstract
 positive constant `T`; nothing here depends on its value.
 */
module WheelGeometry {

  type Positive = x: real | x > 0.0 witness 1.0

  /** One full turn, `2 * Math.PI` in the source. */
  const T: Positive

  /** Integer part rounded toward zero, as JavaScript's `%` uses it. */
  function Trunc(x: real): int
  {
    if x >= 0.0 then x.Floor else -((-x).Floor)
  }

  /** The angle brought into `[0, T)`: the mathematical (Euclidean) remainder. */
  function Mod(a: real): (r: real)
    ensures 0.0 <= r < T
  {
    var q := (a / T).Floor;
    FloorMul(a, T);
    a - T * q as real
  }

  /**
   `a % (2 * Math.PI)`: JavaScript's remainder, `a - T * trunc(a / T)`. It has
   the sign of `a` and is the Euclidean remainder for non-negative angles and
   its mirror image for negative ones.
   */
  function JsRem(a: real): (r: real)
    ensures -(T as real) < r < T
    ensures a >= 0.0 ==> r == Mod(a)
    ensures a < 0.0 ==> r == -Mod(-a)
  {
    JsRemAsMod(a);
    a - T * Trunc(a / T) as real
  }

  lemma JsRemAsMod(a: real)
    ensures a - T * Trunc(a / T) as real == if a >= 0.0 then Mod(a) else -Mod(-a)
  {
    if a < 0.0 {
      DivNeg(a, T);
      var q := (-a / T).Floor;
      assert Trunc(a / T) == -q;
      assert Mod(-a) == -a - T * q as real;
    }
  }

  /** The angular width of one slice when `n` names share the disc: `arc`. */
  function Arc(n: nat): (w: real)
    requires n >= 1
    ensures w > 0.0
    ensures w * n as real == T
  {
    T / n as real
  }

  /** The arc `[start, end)` one name occupies on the disc, in the disc's own frame. */
  datatype Slice = Slice(start: real, end: real)

  predicate Contains(s: Slice, theta: real)
  {
    s.start <= theta < s.end
  }

  /** Slice `i` of `n`: from `i * arc` to `i * arc + arc`, as `drawWheel` draws it. */
  function SliceFor(i: nat, n: nat): (s: Slice)
    requires n >= 1
    ensures s.end - s.start == T / n as real
    ensures i < n ==> 0.0 <= s.start < s.end <= T
  {
    var w := Arc(n);
    var start := i as real * w;
    SliceInDisc(i, n, w);
    Slice(start, start + w)
  }

  lemma SliceInDisc(i: nat, n: nat, w: real)
    requires w > 0.0 && w * n as real == T
    ensures i < n ==> 0.0 <= i as real * w < i as real * w + w <= T
  {
    if i < n {
      MulMono(i as real + 1.0, n as real, w);
    }
  }

  /** The slices for `n` names, in list order. */
  function Layout(n: nat): (slices: seq<Slice>)
    requires n >= 1
    ensures |slices| == n
    ensures slices[0].start == 0.0 && slices[n - 1].end == T
    ensures forall i :: 0 <= i < n - 1 ==> slices[i].end == slices[i + 1].start
    ensures forall i :: 0 <= i < n ==> slices[i].end - slices[i].start == T / n as real
  {
    var slices := seq(n, i requires 0 <= i < n => SliceFor(i, n));
    assert slices[n - 1].end == n as real * Arc(n);
    slices
  }

  /** The index of the slice holding a disc-frame angle in `[0, T)`. */
  function SliceAt(theta: real, n: nat): (i: nat)
    requires n >= 1
    requires 0.0 <= theta < T
    ensures i < n
    ensures Contains(SliceFor(i, n), theta)
  {
    var w := Arc(n);
    var q := (theta / w).Floor;
    FloorMul(theta, w);
    IndexInRange(q, n, w, theta);
    q
  }

  /** A slice start at or below `x`, with `x` inside the disc, is a valid slice index. */
  lemma IndexInRange(q: int, n: nat, w: real, x: real)
    requires w > 0.0 && 0.0 <= x && x < n as real * w
    requires q as real * w <= x < q as real * w + w
    ensures 0 <= q < n
  {
    if q < 0 {
      MulMono(q as real + 1.0, 0.0, w);
    }
    if q >= n {
      MulMono(n as real, q as real, w);
    }
  }

  /** No angle lies in two different slices. */
  lemma SlicesDisjoint(i: nat, j: nat, n: nat, theta: real)
    requires n >= 1
    requires Contains(SliceFor(i, n), theta) && Contains(SliceFor(j, n), theta)
    ensures i == j
  {
    var w := Arc(n);
    if i < j {
      NoOverlap(i, j, w, theta);
    } else if j < i {
      NoOverlap(j, i, w, theta);
    }
  }

  /** Every angle of `[0, T)` lies in exactly one slice: the one `SliceAt` names. */
  lemma LayoutCovers(theta: real, n: nat, i: nat)
    requires n >= 1 && 0.0 <= theta < T && i < n
    ensures Contains(Layout(n)[i], theta) <==> i == SliceAt(theta, n)
  {
    if Contains(Layout(n)[i], theta) {
      SlicesDisjoint(i, SliceAt(theta, n), n, theta);
    }
  }

  /**
   The disc-frame angle that sits at canvas angle 0 (the 3 o'clock direction)
   when the disc has been rotated by `a`.
   */
  function DiscAngleAtZero(a: real): real
  {
    Mod(-a)
  }

  /**
   The winner formula of `animate`:
   `Math.floor(n - ((a % (2 * Math.PI)) / (2 * Math.PI)) * n) % n`.
   It always picks the slice that lies at canvas angle 0 once the disc is
   rotated by `a`, for any angle of either sign.
   */
  function WinnerIndex(a: real, n: nat): (i: nat)
    requires n >= 1
    ensures i < n
    ensures i == SliceAt(DiscAngleAtZero(a), n)
  {
    WinnerRaw(a, n);
    RawWinner(a, n) % n
  }

  /** `Math.floor(n - ((a % (2 * Math.PI)) / (2 * Math.PI)) * n)`, before the final `% n`. */
  function RawWinner(a: real, n: nat): int
  {
    (n as real - (JsRem(a) / T) * n as real).Floor
  }

  /**
   The winner is exactly the slice holding the disc angle at canvas angle 0:
   slice `i` contains it if and only if `i` is the winner.
   */
  lemma WinnerIsUniqueSlice(a: real, n: nat, i: nat)
    requires i < n
    ensures Contains(SliceFor(i, n), DiscAngleAtZero(a)) <==> i == WinnerIndex(a, n)
  {
    var k := WinnerIndex(a, n);
    if Contains(SliceFor(i, n), DiscAngleAtZero(a)) {
      SlicesDisjoint(i, k, n, DiscAngleAtZero(a));
    }
  }

  /** The floor inside `WinnerIndex` is the slice index, up to a multiple of `n`. */
  lemma WinnerRaw(a: real, n: nat)
    requires n >= 1
    ensures RawWinner(a, n) >= 0
    ensures RawWinner(a, n) % n == SliceAt(DiscAngleAtZero(a), n)
  {
    var j := SliceAt(DiscAngleAtZero(a), n);
    if a >= 0.0 && Mod(a) == 0.0 {
      RawWhenWhole(a, n);
      WrapIndex(RawWinner(a, n), j, n);
    } else if a >= 0.0 {
      RawWhenPositive(a, n);
      WrapIndex(RawWinner(a, n), j, n);
    } else {
      RawWhenNegative(a, n);
      WrapIndex(RawWinner(a, n), j, n);
    }
  }

  /** A whole number of turns: the floor is `n`, and slice 0 is at canvas angle 0. */
  lemma RawWhenWhole(a: real, n: nat)
    requires n >= 1 && a >= 0.0 && Mod(a) == 0.0
    ensures RawWinner(a, n) == n + SliceAt(DiscAngleAtZero(a), n)
  {
    ModMirror(a);
    SliceUnits(Mod(-a), n);
    assert JsRem(a) == 0.0;
  }

  /** A positive angle with a fractional turn: the floor is the slice index itself. */
  lemma RawWhenPositive(a: real, n: nat)
    requires n >= 1 && a >= 0.0 && Mod(a) != 0.0
    ensures RawWinner(a, n) == SliceAt(DiscAngleAtZero(a), n)
  {
    var m := Mod(-a);
    SliceUnits(m, n);
    RawInSliceUnits(a, n);
    var x := n as real - (JsRem(a) / T) * n as real;
    assert x == m / T * n as real;
  }

  /** A negative angle: the floor is `n` plus the slice index. */
  lemma RawWhenNegative(a: real, n: nat)
    requires n >= 1 && a < 0.0
    ensures RawWinner(a, n) == n + SliceAt(DiscAngleAtZero(a), n)
  {
    var m := Mod(-a);
    var y := m / T * n as real;
    SliceUnits(m, n);
    RawInSliceUnits(a, n);
    FloorShift(y, n);
    var x := n as real - (JsRem(a) / T) * n as real;
    assert x == n as real + y;
  }

  lemma WrapIndex(raw: int, j: int, n: int)
    requires 0 <= j < n && (raw == j || raw == n + j)
    ensures raw >= 0 && raw % n == j
  {
  }

  /** The disc angle measured in slices has the slice index as its floor. */
  lemma SliceUnits(m: real, n: nat)
    requires n >= 1 && 0.0 <= m < T
    ensures (m / T * n as real).Floor == SliceAt(m, n)
    ensures (m == 0.0 ==> SliceAt(m, n) == 0)
  {
    ScaleByArc(m, n);
  }

  /** The real number under the floor of the winner formula, in terms of the disc angle. */
  lemma RawInSliceUnits(a: real, n: nat)
    requires n >= 1
    ensures var x := n as real - (JsRem(a) / T) * n as real;
            var y := Mod(-a) / T * n as real;
            && (a >= 0.0 && Mod(a) == 0.0 ==> x == n as real)
            && (a >= 0.0 && Mod(a) != 0.0 ==> x == y)
            && (a < 0.0 ==> x == n as real + y)
  {
    var nr := n as real;
    var m := Mod(-a);
    ModMirror(a);
    if a >= 0.0 && Mod(a) != 0.0 {
      TurnComplement(Mod(a), nr);
    } else if a < 0.0 {
      DivNeg(m, T);
    }
  }

  /** An angle is its remainder plus whole turns. */
  lemma ModSplit(a: real)
    ensures a == (a / T).Floor as real * T + Mod(a)
  {
  }

  /** Reflecting an angle reflects its remainder: `(-a) mod T` is `T - (a mod T)` or 0. */
  lemma ModMirror(a: real)
    ensures Mod(a) == 0.0 ==> Mod(-a) == 0.0
    ensures Mod(a) > 0.0 ==> Mod(-a) == T - Mod(a)
  {
    var p := Mod(a);
    var k := (a / T).Floor;
    assert a == k as real * T + p;
    if p == 0.0 {
      ModOfShift(-a, -k, 0.0);
    } else {
      ModOfShift(-a, -k - 1, T - p);
    }
  }

  /** The part of a turn left after `p` is `1 - p / T` turns. */
  lemma TurnComplement(p: real, nr: real)
    ensures (T - p) / T * nr == nr - (p / T) * nr
  {
    DivLinear(T, p, T);
    assert T / T == 1.0;
  }

  /** Measuring in arcs is measuring in turns and scaling by `n`. */
  lemma ScaleByArc(x: real, n: nat)
    requires n >= 1
    ensures x / Arc(n) == (x / T) * n as real
  {
    var nr := n as real;
    var w := Arc(n);
    DivMul(x, w);
    DivMul(x, T);
    assert (x / T) * nr * w == (x / T) * T;
    DivUnique(x, w, (x / T) * nr);
  }

  /** The remainder is the unique `x` in `[0, T)` that differs from `a` by whole turns. */
  lemma ModOfShift(a: real, q: int, x: real)
    requires 0.0 <= x < T
    requires a == q as real * T + x
    ensures Mod(a) == x
  {
    DivAdd(q as real, x, T);
    DivBounds(x, T);
    assert a / T == q as real + x / T;
    assert (a / T).Floor == q;
  }

  /** The winner does not change when the final angle moves by whole turns. */
  lemma WinnerFullTurns(a: real, k: int, n: nat)
    requires n >= 1
    ensures WinnerIndex(a + k as real * T, n) == WinnerIndex(a, n)
  {
    var m := Mod(-a);
    var q := (-a / T).Floor;
    FloorMul(-a, T);
    assert -a == q as real * T + m;
    ModOfShift(-(a + k as real * T), q - k, m);
  }

  /**
   Where `drawWheel` writes the label of slice `i`: half an arc past the start
   of the slice. It lies inside its own slice.
   */
  function LabelAngle(i: nat, n: nat): (theta: real)
    requires i < n
    ensures 0.0 <= theta < T
    ensures Contains(SliceFor(i, n), theta)
  {
    var w := Arc(n);
    MidInside(i, n, w);
    i as real * w + w / 2.0
  }

  /**
   Resting with the label of slice `i` at canvas angle 0 makes `i` the
   winner, so every index can win.
   */
  lemma LabelWins(i: nat, n: nat)
    requires i < n
    ensures WinnerIndex(-LabelAngle(i, n), n) == i
  {
    var mid := LabelAngle(i, n);
    MidpointDiscAngle(mid);
    WinnerIsUniqueSlice(-mid, n, i);
  }

  lemma MidpointDiscAngle(mid: real)
    requires 0.0 <= mid < T
    ensures DiscAngleAtZero(-mid) == mid
  {
    assert --mid == mid;
    ModOfShift(mid, 0, mid);
  }

  /** The middle of slice `i` lies inside slice `i`, and inside the disc. */
  lemma MidInside(i: nat, n: nat, w: real)
    requires i < n && w > 0.0 && w * n as real == T
    ensures 0.0 <= i as real * w <= i as real * w + w / 2.0 < i as real * w + w <= T
  {
    MulMono(i as real + 1.0, n as real, w);
  }

  // Real-arithmetic helpers.

  lemma MulMono(x: real, y: real, c: real)
    requires c > 0.0 && x <= y
    ensures x * c <= y * c
  {
    assert y * c - x * c == (y - x) * c;
  }

  lemma MulStrict(x: real, y: real, c: real)
    requires c > 0.0 && x < y
    ensures x * c < y * c
  {
    assert y * c - x * c == (y - x) * c;
  }

  lemma DivMul(x: real, c: real)
    requires c > 0.0
    ensures (x / c) * c == x
  {
  }

  lemma DivUnique(x: real, c: real, d: real)
    requires c > 0.0 && d * c == x
    ensures x / c == d
  {
    DivMul(x, c);
    if d < x / c { MulStrict(d, x / c, c); }
    if d > x / c { MulStrict(x / c, d, c); }
  }

  lemma DivBounds(x: real, c: real)
    requires c > 0.0 && 0.0 <= x < c
    ensures 0.0 <= x / c < 1.0
  {
    var q := x / c;
    DivMul(x, c);
    if q < 0.0 { MulStrict(q, 0.0, c); }
    if q >= 1.0 { MulMono(1.0, q, c); }
  }

  lemma DivAdd(q: real, x: real, c: real)
    requires c > 0.0
    ensures (q * c + x) / c == q + x / c
  {
    DivMul(x, c);
    assert (q + x / c) * c == q * c + x;
    DivUnique(q * c + x, c, q + x / c);
  }

  lemma DivLinear(x: real, y: real, c: real)
    requires c > 0.0
    ensures (x - y) / c == x / c - y / c
  {
    DivMul(x, c);
    DivMul(y, c);
    assert (x / c - y / c) * c == x - y;
    DivUnique(x - y, c, x / c - y / c);
  }

  lemma DivNeg(x: real, c: real)
    requires c > 0.0
    ensures (-x) / c == -(x / c)
  {
    DivMul(x, c);
    DivUnique(-x, c, -(x / c));
  }

  /** `q = floor(x / c)` brackets `x` between `q * c` and `q * c + c`. */
  lemma FloorMul(x: real, c: real)
    requires c > 0.0
    ensures (x / c).Floor as real * c <= x
    ensures x < (x / c).Floor as real * c + c
  {
    var q := (x / c).Floor as real;
    var y := x / c;
    assert q <= y < q + 1.0;
    DivMul(x, c);
    MulMono(q, y, c);
    MulStrict(y, q + 1.0, c);
    assert (q + 1.0) * c == q * c + c;
    assert x == y * c;
    assert x < q * c + c;
  }

  /** Slice `i` ends where slice `j > i` at the earliest begins. */
  lemma NoOverlap(i: int, j: int, w: real, x: real)
    requires w > 0.0 && i < j
    ensures !(j as real * w <= x < i as real * w + w)
  {
    MulMono(i as real + 1.0, j as real, w);
  }

  lemma FloorShift(x: real, n: int)
    ensures (n as real + x).Floor == n + x.Floor
  {
  }
}
