// The fixed-point ray caster: sixteen fraction bits, a sine table in degrees, a
// walk from grid line to grid line, and the camera that starts it.

module Ray {
  import opened Machine

  // Division and remainder as C has them, towards zero.
  function Truncated(a: int, b: int): int
    requires b != 0
  {
    if (a < 0) == (b < 0) then Abs(a) / Abs(b) else 0 - Abs(a) / Abs(b)
  }

  function Remainder(a: int, b: int): int
    requires b != 0
  {
    if a < 0 then 0 - Abs(a) % Abs(b) else a % Abs(b)
  }

  // A shift right keeps the sign: it rounds down.
  function ToInt(x: int): int { x / 65536 }

  function FpMul(a: int, b: int): int { a * b / 65536 }

  function FpDiv(a: int, b: int): int
    requires b != 0
  {
    Truncated(a * 65536, b)
  }

  // ---------- the sine table ----------

  // Eight degrees to the row.
  const SIN: seq<seq<int>> := [
    [0, 1143, 2287, 3430, 4571, 5712, 6850, 7987],
    [9120, 10251, 11380, 12504, 13625, 14742, 15855, 16962],
    [18064, 19161, 20251, 21336, 22415, 23486, 24550, 25607],
    [26656, 27696, 28729, 29752, 30767, 31772, 32768, 33754],
    [34729, 35693, 36647, 37590, 38521, 39441, 40348, 41243],
    [42126, 42995, 43852, 44695, 45525, 46341, 47143, 47930],
    [48703, 49461, 50203, 50931, 51643, 52339, 53020, 53684],
    [54332, 54963, 55578, 56175, 56756, 57319, 57865, 58393],
    [58903, 59395, 59870, 60326, 60763, 61183, 61584, 61966],
    [62328, 62672, 62997, 63303, 63589, 63856, 64104, 64332],
    [64540, 64729, 64898, 65047, 65176, 65286, 65376, 65446],
    [65496, 65527, 65536]
  ]

  function Sine(d: int): int
    requires 0 <= d <= 90
  {
    TableShape(d);
    SIN[d / 8][d % 8]
  }

  lemma TableShape(d: int)
    requires 0 <= d <= 90
    ensures |SIN| == 12 && d % 8 < |SIN[d / 8]|
  {
  }

  lemma TableBounds(d: int)
    requires 0 <= d <= 90
    ensures 0 <= Sine(d) <= 65536 && (if d == 0 then Sine(d) == 0 else Sine(d) >= 1143)
  {
    TableShape(d);
    var row := SIN[d / 8];
    assert forall k :: 0 <= k < |row| ==> 0 <= row[k] <= 65536 && (row[k] >= 1143 || d < 8);
  }

  function Turn(deg: int): (d: int)
    ensures d == deg % 360
  {
    (Remainder(deg, 360) + 360) % 360
  }

  function FpSin(deg: int): int {
    var d := Turn(deg);
    if d <= 90 then Sine(d)
    else if d <= 180 then Sine(180 - d)
    else if d <= 270 then 0 - Sine(d - 180)
    else 0 - Sine(360 - d)
  }

  function FpCos(deg: int): int { FpSin(deg + 90) }

  // No value but 0 is so small that a ray would count as parallel by rounding.
  lemma SineBounds(deg: int)
    ensures Abs(FpSin(deg)) <= 65536 && (FpSin(deg) == 0 || Abs(FpSin(deg)) >= 1143)
    ensures FpSin(deg) == 0 <==> deg % 180 == 0
  {
    hide Sine;
    var d := deg % 360;
    TableBounds(if d <= 90 then d else if d <= 180 then 180 - d else if d <= 270 then d - 180 else 360 - d);
  }

  lemma SineIs(deg: int)
    ensures var d := deg % 360;
            FpSin(deg) == if d <= 90 then Sine(d) else if d <= 180 then Sine(180 - d)
                          else if d <= 270 then 0 - Sine(d - 180) else 0 - Sine(360 - d)
  {
  }

  // The table is read the right way round in every quadrant.
  lemma SineSymmetry(deg: int)
    ensures FpSin(0 - deg) == 0 - FpSin(deg) && FpSin(180 - deg) == FpSin(deg)
    ensures FpSin(deg) > 0 <==> 0 < deg % 360 < 180
  {
    hide Sine, FpSin;
    Mirror(deg);
    SineIs(deg);
    SineIs(0 - deg);
    SineIs(180 - deg);
    TableBounds(0);
    SineSign(deg);
  }

  lemma SineSign(deg: int)
    ensures FpSin(deg) > 0 <==> 0 < deg % 360 < 180
  {
    hide Sine;
    var d := deg % 360;
    TableBounds(if d <= 90 then d else if d <= 180 then 180 - d else if d <= 270 then d - 180 else 360 - d);
  }

  lemma CosineEven(deg: int)
    ensures FpCos(0 - deg) == FpCos(deg)
  {
    hide FpSin;
    SineSymmetry(deg + 90);
    assert 180 - (deg + 90) == 0 - deg + 90;
  }

  lemma Mirror(deg: int)
    ensures (0 - deg) % 360 == if deg % 360 == 0 then 0 else 360 - deg % 360
    ensures (180 - deg) % 360 == if deg % 360 <= 180 then 180 - deg % 360 else 540 - deg % 360
  {
  }

  lemma RowRises(q: int)
    requires 0 <= q < 12
    ensures |SIN| == 12 && forall k :: 0 < k < |SIN[q]| ==> SIN[q][k - 1] < SIN[q][k]
  {
  }

  lemma RowFollows(q: int)
    requires 0 <= q < 11
    ensures |SIN| == 12 && |SIN[q]| == 8 && |SIN[q + 1]| > 0 && SIN[q][7] < SIN[q + 1][0]
  {
  }

  // And it rises from 0 to 90 degrees.
  lemma SineRises(d: int)
    requires 0 <= d < 90
    ensures Sine(d) < Sine(d + 1)
  {
    hide SIN;
    var q, k := d / 8, d % 8;
    RowRises(q);
    TableShape(d);
    TableShape(d + 1);
    if k == 7 {
      RowFollows(q);
      assert (d + 1) / 8 == q + 1 && (d + 1) % 8 == 0;
    } else {
      assert (d + 1) / 8 == q && (d + 1) % 8 == k + 1;
      assert SIN[q][k + 1 - 1] < SIN[q][k + 1];
    }
  }

  // A direction of length one, to within three units of the last place in its square.
  predicate UnitLength(s: int, c: int) {
    Abs(s * s + c * c - 0x1_0000_0000) <= 3 * 65536
  }

  // Sines of three degrees in a row: the curve bends back towards zero as fast as it is high.
  predicate Bends(before: int, here: int, after: int) {
    Abs(65536 * (before + after - 2 * here) + 20 * here) <= 3 * 65536
  }

  lemma UnitRow(q: int)
    requires 0 <= q < 6
    ensures |SIN| == 12 && |SIN[q]| == 8 && |SIN[11 - q]| >= 3 && |SIN[10 - q]| == 8
    ensures forall k :: 0 <= k < 3 ==> UnitLength(SIN[q][k], SIN[11 - q][2 - k])
    ensures forall k :: 3 <= k < 8 ==> UnitLength(SIN[q][k], SIN[10 - q][10 - k])
  {
    if q == 0 {
    } else if q == 1 {
    } else if q == 2 {
    } else if q == 3 {
    } else if q == 4 {
    }
  }

  lemma BendRow(q: int)
    requires 0 <= q < 12
    ensures |SIN| == 12 && |SIN[q]| == if q < 11 then 8 else 3
    ensures forall k :: 0 < k < |SIN[q]| - 1 ==> Bends(SIN[q][k - 1], SIN[q][k], SIN[q][k + 1])
  {
  }

  lemma BendAcross(q: int)
    requires 0 <= q < 11
    ensures |SIN| == 12 && |SIN[q]| == 8 && |SIN[q + 1]| >= 3
    ensures Bends(SIN[q][6], SIN[q][7], SIN[q + 1][0]) && Bends(SIN[q][7], SIN[q + 1][0], SIN[q + 1][1])
  {
  }

  lemma TableUnit(d: int)
    requires 0 <= d <= 90
    ensures UnitLength(Sine(d), Sine(90 - d))
  {
    hide SIN, UnitLength;
    var e := if d <= 45 then d else 90 - d;
    var q, k := e / 8, e % 8;
    TableShape(e);
    TableShape(90 - e);
    UnitRow(q);
    if k < 3 {
      assert (90 - e) / 8 == 11 - q && (90 - e) % 8 == 2 - k;
    } else {
      assert (90 - e) / 8 == 10 - q && (90 - e) % 8 == 10 - k;
    }
    UnitSwaps(Sine(e), Sine(90 - e));
  }

  lemma UnitSwaps(s: int, c: int)
    requires UnitLength(s, c)
    ensures UnitLength(c, s) && UnitLength(0 - s, c) && UnitLength(s, 0 - c) && UnitLength(0 - s, 0 - c)
    ensures UnitLength(0 - c, s) && UnitLength(c, 0 - s) && UnitLength(0 - c, 0 - s)
  {
    assert (0 - s) * (0 - s) == s * s && (0 - c) * (0 - c) == c * c;
  }

  lemma TableBends(d: int)
    requires 0 < d < 90
    ensures Bends(Sine(d - 1), Sine(d), Sine(d + 1))
  {
    hide SIN, Bends;
    var q, k := d / 8, d % 8;
    TableShape(d - 1);
    TableShape(d);
    TableShape(d + 1);
    if k == 7 {
      BendAcross(q);
      assert (d - 1) / 8 == q && (d - 1) % 8 == 6 && (d + 1) / 8 == q + 1 && (d + 1) % 8 == 0;
    } else if k == 0 {
      BendAcross(q - 1);
      assert (d - 1) / 8 == q - 1 && (d - 1) % 8 == 7 && (d + 1) / 8 == q && (d + 1) % 8 == 1;
    } else {
      BendRow(q);
      assert (d - 1) / 8 == q && (d - 1) % 8 == k - 1 && (d + 1) / 8 == q && (d + 1) % 8 == k + 1;
      assert 0 < k < |SIN[q]| - 1;
    }
  }

  // The quarter the angle is in, and how far from the axis of the sine.
  lemma Quarter(deg: int) returns (e: int)
    ensures 0 <= e <= 90
    ensures FpSin(deg) == Sine(e) || FpSin(deg) == 0 - Sine(e)
    ensures FpCos(deg) == Sine(90 - e) || FpCos(deg) == 0 - Sine(90 - e)
  {
    hide Sine;
    var d := deg % 360;
    e := if d <= 90 then d else if d <= 180 then 180 - d else if d <= 270 then d - 180 else 360 - d;
    assert (deg + 90) % 360 == if d < 270 then d + 90 else d - 270;
    TableBounds(0);
  }

  // Every direction has length one.
  lemma DirectionsUnit(deg: int)
    ensures UnitLength(FpSin(deg), FpCos(deg))
  {
    hide FpSin, FpCos, UnitLength, Sine;
    var e := Quarter(deg);
    TableUnit(e);
    UnitSwaps(Sine(e), Sine(90 - e));
  }

  lemma PeaksBend()
    ensures Bends(Sine(89), Sine(90), Sine(89))
  {
    assert SIN[11][1] == 65527 && SIN[11][2] == 65536;
  }

  // And the sine bends all the way round as a circle of 360 degrees makes it: by 20 parts
  // in 65536 a degree, which is the square of a degree in radians.
  lemma SineBends(deg: int)
    ensures Bends(FpSin(deg - 1), FpSin(deg), FpSin(deg + 1))
  {
    hide FpSin, Sine, Bends;
    var d := deg % 360;
    assert (deg - 1) % 360 == (if d == 0 then 359 else d - 1) && (deg + 1) % 360 == if d == 359 then 0 else d + 1;
    SineIs(deg - 1);
    SineIs(deg);
    SineIs(deg + 1);
    TableBounds(0);
    if d % 90 != 0 {
      var e := if d < 90 then d else if d < 180 then 180 - d else if d < 270 then d - 180 else 360 - d;
      TableBends(e);
      BendsMirrored(Sine(e - 1), Sine(e), Sine(e + 1));
    } else {
      PeaksBend();
      BendsMirrored(Sine(89), Sine(90), Sine(89));
      ZeroBends(Sine(1));
    }
  }

  lemma BendsMirrored(before: int, here: int, after: int)
    requires Bends(before, here, after)
    ensures Bends(after, here, before)
    ensures Bends(0 - before, 0 - here, 0 - after) && Bends(0 - after, 0 - here, 0 - before)
  {
  }

  lemma ZeroBends(s: int)
    ensures Bends(0 - s, 0, s) && Bends(s, 0, 0 - s)
  {
  }

  // ---------- the map ----------

  const MAP: seq<seq<int>> := [
    [1,1,1,1,1,1,1,1,1,1,1,1,1,1,1,1],
    [1,0,0,0,0,0,0,0,0,0,0,0,0,0,0,1],
    [1,0,0,0,0,0,0,0,0,0,0,0,0,0,0,1],
    [1,0,0,1,1,0,0,0,0,0,1,0,0,0,0,1],
    [1,0,0,1,0,0,0,0,0,0,1,0,0,0,0,1],
    [1,0,0,0,0,0,0,0,0,0,1,0,0,0,0,1],
    [1,0,0,0,0,0,0,0,0,0,0,0,0,0,0,1],
    [1,0,0,0,0,0,1,1,0,0,0,0,0,0,0,1],
    [1,0,0,0,0,0,1,1,0,0,0,0,0,0,0,1],
    [1,0,0,0,0,0,0,0,0,0,0,0,1,0,0,1],
    [1,0,0,0,0,0,0,0,0,0,0,0,1,0,0,1],
    [1,0,0,1,0,0,0,0,0,0,0,0,1,0,0,1],
    [1,0,0,1,0,0,0,0,0,0,0,0,0,0,0,1],
    [1,0,0,0,0,0,0,0,0,0,0,0,0,0,0,1],
    [1,0,0,0,0,0,0,0,0,0,0,0,0,0,0,1],
    [1,1,1,1,1,1,1,1,1,1,1,1,1,1,1,1]
  ]

  predicate MapSolid(x: int, y: int) {
    MapShape();
    if x < 0 || x >= 16 || y < 0 || y >= 16 then true else MAP[y][x] != 0
  }

  lemma MapShape()
    ensures |MAP| == 16 && forall y :: 0 <= y < 16 ==> |MAP[y]| == 16
  {
  }

  // The map is walled in.
  lemma BorderSolid(x: int, y: int)
    requires !(1 <= x <= 14 && 1 <= y <= 14)
    ensures MapSolid(x, y)
  {
  }

  // Inside the walls, these blocks.
  lemma MapIs(x: int, y: int)
    requires 1 <= x <= 14 && 1 <= y <= 14
    ensures MapSolid(x, y) <==>
              (x, y) in {(3, 3), (4, 3), (3, 4), (10, 3), (10, 4), (10, 5), (6, 7), (7, 7), (6, 8), (7, 8),
                         (12, 9), (12, 10), (12, 11), (3, 11), (3, 12)}
  {
  }

  // ---------- the crossings along one axis ----------

  // The crossings of grid lines lie at first, first + delta, first + 2 * delta, ...
  datatype Axis = Axis(first: int, delta: int)

  function Crossing(a: Axis, i: int): int { a.first + i * a.delta }

  // How far position p is from the next grid line in the direction of r.
  function Gap(p: int, r: int): int {
    if r > 0 then (ToInt(p) + 1) * 65536 - p else p - ToInt(p) * 65536
  }

  function AxisOf(p: int, r: int): Axis {
    if Abs(r) < 10 then Axis(65536000, 65536000)
    else Axis(Gap(p, r) * (0x1_0000_0000 / Abs(r)) / 65536, 0x1_0000_0000 / Abs(r))
  }

  ghost predicate Spaced(a: Axis) {
    && 0 <= a.first <= a.delta
    && (65536 <= a.delta <= 3757627 || (a.delta == a.first == 65536000))
  }

  lemma Inverse(r: int)
    requires 1143 <= r <= 65536
    ensures 65536 <= 0x1_0000_0000 / r <= 3757627
  {
    var q := 0x1_0000_0000 / r;
    Monotone(q + 1, r, 65536);
    Monotone(q, 1143, r);
  }

  lemma Monotone(m: int, n: int, k: int)
    requires n <= k && m >= 0
    ensures m * n <= m * k
  {
  }

  lemma AxisSpaced(p: int, deg: int)
    ensures Spaced(AxisOf(p, FpSin(deg)))
  {
    hide FpSin;
    var r := FpSin(deg);
    SineBounds(deg);
    if Abs(r) >= 10 {
      Inverse(Abs(r));
      GapShrinks(Gap(p, r), 0x1_0000_0000 / Abs(r));
    }
  }

  lemma GapShrinks(gap: int, delta: int)
    requires 0 <= gap <= 65536 && delta >= 0
    ensures 0 <= gap * delta / 65536 <= delta
  {
    Monotone(delta, gap, 65536);
    assert gap * delta >= 0;
  }

  lemma CrossingsGrow(a: Axis, i: int, k: int)
    requires Spaced(a) && i <= k
    ensures Crossing(a, i) <= Crossing(a, k)
    ensures i < k ==> Crossing(a, i) + 65536 <= Crossing(a, k)
  {
    Monotone(a.delta, i, k);
    assert i < k ==> a.delta * (k - i) >= a.delta by {
      Scale(a.delta, k - i);
    }
    assert a.delta * (k - i) == k * a.delta - i * a.delta;
  }

  // The i-th grid line met from p in the direction of r: a multiple of a cell, more than i
  // cells ahead and i + 1 at most; going down, a line that p lies on is met at once.
  predicate IsLine(p: int, r: int, i: int, line: int) {
    line % 65536 == 0 &&
    if r > 0 then p + 65536 * i < line <= p + 65536 * (i + 1) else p - 65536 * (i + 1) < line <= p - 65536 * i
  }

  // t is the distance along the ray at which the line is met: t times |r| is the way along
  // the axis, and rounding makes it too short by i + 2 units at most.
  predicate Measures(p: int, r: int, i: int, line: int, t: int) {
    65536 * Abs(line - p) - (i + 2) * Abs(r) <= t * Abs(r) <= 65536 * Abs(line - p)
  }

  // There is one such line, as far away as the gap and i cells.
  lemma LineAhead(p: int, r: int, i: nat) returns (line: int)
    ensures IsLine(p, r, i, line) && Abs(line - p) == Gap(p, r) + 65536 * i
    ensures forall l :: IsLine(p, r, i, l) ==> l == line
  {
    line := if r > 0 then (ToInt(p) + 1 + i) * 65536 else (ToInt(p) - i) * 65536;
    forall l | IsLine(p, r, i, l)
      ensures l == line
    {
      SameMultiple(l, line);
    }
  }

  lemma SameMultiple(l: int, m: int)
    requires l % 65536 == 0 && m % 65536 == 0 && Abs(l - m) < 65536
    ensures l == m
  {
    assert l == 65536 * (l / 65536) && m == 65536 * (m / 65536);
  }

  lemma FirstRounds(gap: int, delta: int, r: int)
    requires 0 <= gap <= 65536 && 0 < r && 0x1_0000_0000 - r < delta * r <= 0x1_0000_0000
    ensures var first := gap * delta / 65536;
            65536 * gap - 2 * r <= first * r <= 65536 * gap
  {
    var first, q := gap * delta / 65536, gap * (delta * r);
    assert gap * delta * r == q;
    Bounded(gap, delta * r, 0x1_0000_0000);
    Bounded(gap, 0x1_0000_0000 - r, delta * r);
    assert gap * (0x1_0000_0000 - r) == gap * 0x1_0000_0000 - gap * r;
    Monotone(r, gap, 65536);
    Floors(gap * delta, r);
  }

  lemma Bounded(gap: int, m: int, n: int)
    requires 0 <= gap && m <= n
    ensures gap * m <= gap * n
  {
    Monotone(gap, m, n);
  }

  lemma Floors(n: int, r: int)
    requires r >= 0
    ensures n * r - 65536 * r <= 65536 * (n / 65536 * r) <= n * r
  {
    var f := n / 65536;
    Monotone(r, 65536 * f, n);
    Monotone(r, n - 65536, 65536 * f);
    assert 65536 * f * r == 65536 * (f * r) && (n - 65536) * r == n * r - 65536 * r;
  }

  lemma DeltaRounds(r: int)
    requires 0 < r
    ensures 0x1_0000_0000 - r < 0x1_0000_0000 / r * r <= 0x1_0000_0000
  {
  }

  // The i-th crossing is where the ray meets the i-th grid line ahead.
  lemma CrossingMeasures(p: int, r: int, i: nat, line: int)
    requires 10 <= Abs(r) && IsLine(p, r, i, line)
    ensures Measures(p, r, i, line, Crossing(AxisOf(p, r), i))
  {
    hide IsLine, Gap;
    var n: int := Abs(r);
    var ahead := LineAhead(p, r, i);
    GapShort(p, r);
    DeltaRounds(n);
    FirstRounds(Gap(p, r), 0x1_0000_0000 / n, n);
    CrossingRounds(Gap(p, r), Crossing(AxisOf(p, r), 0), 0x1_0000_0000 / n, i, n);
  }

  lemma GapShort(p: int, r: int)
    ensures 0 <= Gap(p, r) <= 65536
  {
  }

  lemma CrossingRounds(gap: int, first: int, delta: int, i: int, n: int)
    requires 65536 * gap - 2 * n <= first * n <= 65536 * gap && i >= 0
    requires 0x1_0000_0000 - n <= delta * n <= 0x1_0000_0000
    ensures 65536 * (gap + 65536 * i) - (i + 2) * n <= (first + i * delta) * n <= 65536 * (gap + 65536 * i)
  {
    assert (first + i * delta) * n == first * n + i * (delta * n);
    Bounded(i, delta * n, 0x1_0000_0000);
    Bounded(i, 0x1_0000_0000 - n, delta * n);
    assert i * (0x1_0000_0000 - n) == 0x1_0000_0000 * i - i * n && (i + 2) * n == i * n + 2 * n;
  }

  // ---------- the merge of both axes ----------

  // The first i crossings of x and the first j of y are the i + j smallest, ties to y.
  predicate Taken(x: Axis, y: Axis, i: nat, j: nat) {
    && (i == 0 || Crossing(x, i - 1) < Crossing(y, j))
    && (j == 0 || Crossing(y, j - 1) <= Crossing(x, i))
  }

  // The largest of them.
  function Latest(x: Axis, y: Axis, i: nat, j: nat): int {
    if i == 0 && j == 0 then 0
    else if i == 0 then Crossing(y, j - 1)
    else if j == 0 then Crossing(x, i - 1)
    else if Crossing(x, i - 1) < Crossing(y, j - 1) then Crossing(y, j - 1) else Crossing(x, i - 1)
  }

  lemma TakeNext(x: Axis, y: Axis, i: nat, j: nat)
    requires Spaced(x) && Spaced(y) && Taken(x, y, i, j)
    ensures Crossing(x, i) < Crossing(y, j) ==>
              Taken(x, y, i + 1, j) && Latest(x, y, i + 1, j) == Crossing(x, i) >= Latest(x, y, i, j)
    ensures Crossing(x, i) >= Crossing(y, j) ==>
              Taken(x, y, i, j + 1) && Latest(x, y, i, j + 1) == Crossing(y, j) >= Latest(x, y, i, j)
  {
    hide Crossing;
    CrossingsGrow(x, i - 1, i);
    CrossingsGrow(x, i, i + 1);
    CrossingsGrow(y, j - 1, j);
    CrossingsGrow(y, j, j + 1);
    FirstNotNegative(x);
    FirstNotNegative(y);
  }

  lemma FirstNotNegative(a: Axis)
    requires Spaced(a)
    ensures Crossing(a, 0) >= 0
  {
  }

  // What was taken comes before all that was not.
  lemma SmallestFirst(x: Axis, y: Axis, i: nat, j: nat, i': nat, j': nat)
    requires Spaced(x) && Spaced(y) && Taken(x, y, i, j)
    ensures i' < i && j' >= j ==> Crossing(x, i') < Crossing(y, j')
    ensures j' < j && i' >= i ==> Crossing(y, j') <= Crossing(x, i')
  {
    hide Crossing;
    if i' < i && j' >= j {
      CrossingsGrow(x, i', i - 1);
      CrossingsGrow(y, j, j');
    }
    if j' < j && i' >= i {
      CrossingsGrow(y, j', j - 1);
      CrossingsGrow(x, i, i');
    }
  }

  // A number of crossings can be taken in one way only.
  lemma TakenUnique(x: Axis, y: Axis, i: nat, j: nat, i': nat, j': nat)
    requires Spaced(x) && Spaced(y) && Taken(x, y, i, j) && Taken(x, y, i', j') && i + j == i' + j'
    ensures i == i' && j == j'
  {
    hide Crossing;
    if i < i' {
      SmallestFirst(x, y, i', j', i, j - 1);
    } else if i' < i {
      SmallestFirst(x, y, i, j, i', j' - 1);
    }
  }

  // An axis parallel to the ray is never crossed inside the map.
  lemma ParallelNeverTaken(x: Axis, y: Axis, i: nat, j: nat)
    requires Spaced(x) && Spaced(y) && x.first == 65536000 && y.delta <= 3757627
    requires Taken(x, y, i, j) && j <= 14
    ensures i == 0
  {
    Monotone(j, y.delta, 3757627);
    if i > 0 {
      CrossingsGrow(x, 0, i - 1);
    }
  }

  lemma ParallelNeverTakenY(x: Axis, y: Axis, i: nat, j: nat)
    requires Spaced(x) && Spaced(y) && y.first == 65536000 && x.delta <= 3757627
    requires Taken(x, y, i, j) && i <= 14
    ensures j == 0
  {
    Monotone(i, x.delta, 3757627);
    if j > 0 {
      CrossingsGrow(y, 0, j - 1);
    }
  }

  // ---------- distances ----------

  // The fish-eye correction and the floor under it.
  function Corrected(dist: int, rayAngle: int, camAngle: int): int {
    var diff := Remainder(rayAngle - camAngle + 180 + 360, 360) - 180;
    var cosDiff := FpCos(Abs(diff));
    var seen := if cosDiff > 100 then FpMul(dist, cosDiff) else dist;
    if seen > 0 then seen else 16384
  }

  // Never more than was measured, never 0, and unchanged straight ahead.
  lemma CorrectedBounds(dist: int, rayAngle: int, camAngle: int)
    requires dist >= 0
    ensures 0 < Corrected(dist, rayAngle, camAngle)
    ensures Corrected(dist, rayAngle, camAngle) <= if dist > 0 then dist + 16384 else 16384
    ensures rayAngle == camAngle && dist > 0 ==> Corrected(dist, rayAngle, camAngle) == dist
  {
    hide FpSin;
    var diff := Remainder(rayAngle - camAngle + 180 + 360, 360) - 180;
    var cosDiff := FpCos(Abs(diff));
    SineBounds(Abs(diff) + 90);
    if cosDiff > 100 {
      Monotone(dist, cosDiff, 65536);
    }
    if rayAngle == camAngle {
      assert FpCos(0) == 65536 by {
        StraightAhead();
      }
    }
  }

  // The correction is by the cosine of the angle between the ray and the camera, rounded
  // down, as long as it is more than 100 units.
  lemma CorrectedByCosine(dist: int, rayAngle: int, camAngle: int)
    requires 0 <= rayAngle < 360 && 0 <= camAngle < 360
    ensures var cos, seen := FpCos(rayAngle - camAngle), Corrected(dist, rayAngle, camAngle);
            && (cos > 100 ==> if dist * cos >= 65536 then 65536 * seen <= dist * cos < 65536 * (seen + 1)
                              else seen == 16384)
            && (cos <= 100 ==> seen == if dist > 0 then dist else 16384)
  {
    hide FpSin;
    var diff := Remainder(rayAngle - camAngle + 180 + 360, 360) - 180;
    AngleBetween(rayAngle, camAngle);
    CosineEven(diff);
    SamePeriod(diff + 90, rayAngle - camAngle + 90);
  }

  lemma AngleBetween(rayAngle: int, camAngle: int)
    requires 0 <= rayAngle < 360 && 0 <= camAngle < 360
    ensures var diff := Remainder(rayAngle - camAngle + 180 + 360, 360) - 180;
            (diff + 90) % 360 == (rayAngle - camAngle + 90) % 360
  {
  }

  lemma SamePeriod(d: int, e: int)
    requires d % 360 == e % 360
    ensures FpSin(d) == FpSin(e)
  {
    hide Sine;
  }

  lemma StraightAhead()
    ensures FpCos(0) == 65536
  {
    hide Sine;
    NinetyDegrees();
  }

  lemma NinetyDegrees()
    ensures Sine(90) == 65536
  {
    assert SIN[11][2] == 65536;
  }

  // ---------- the camera and its rays ----------

  datatype Cell = Cell(x: int, y: int)

  function CellOf(x: int, y: int): Cell { Cell(ToInt(x), ToInt(y)) }

  predicate Open(c: Cell) { !MapSolid(c.x, c.y) }

  // The cell a ray is in after i crossings along x and j along y.
  function CellAfter(c: Cell, rx: int, ry: int, i: nat, j: nat): Cell {
    Cell(if rx > 0 then c.x + i else c.x - i, if ry > 0 then c.y + j else c.y - j)
  }

  // The cell begins at the line on the side of the ray.
  predicate Behind(cell: int, r: int, line: int) {
    if r > 0 then 65536 * cell == line else 65536 * (cell + 1) == line
  }

  // After i crossings along an axis the ray is in the cell behind the last of the lines.
  lemma CellBehind(x: int, y: int, rx: int, ry: int, i: nat, j: nat, line: int)
    ensures i > 0 && IsLine(x, rx, i - 1, line) ==> Behind(CellAfter(CellOf(x, y), rx, ry, i, j).x, rx, line)
    ensures j > 0 && IsLine(y, ry, j - 1, line) ==> Behind(CellAfter(CellOf(x, y), rx, ry, i, j).y, ry, line)
  {
  }

  // A wall seen from p along one axis: cell is behind the i-th line ahead, t away.
  ghost predicate WallBehind(p: int, r: int, i: nat, cell: int, t: int) {
    exists line :: IsLine(p, r, i, line) && Behind(cell, r, line) && Measures(p, r, i, line, t)
  }

  // What a cast ray measures: it meets the wall after i and j crossings across the last
  // of them, and an axis that it runs along is not crossed.
  ghost predicate Meets(x: int, y: int, rx: int, ry: int, i: nat, j: nat, t: int) {
    var wall := CellAfter(CellOf(x, y), rx, ry, i, j);
    && (rx == 0 ==> i == 0) && (ry == 0 ==> j == 0)
    && ((i > 0 && WallBehind(x, rx, i - 1, wall.x, t)) || (j > 0 && WallBehind(y, ry, j - 1, wall.y, t)))
  }

  lemma CrossedLine(p: int, r: int, i: nat, cell: int)
    requires 10 <= Abs(r) && cell == ToInt(p) + if r > 0 then i + 1 else -(i + 1)
    ensures WallBehind(p, r, i, cell, Crossing(AxisOf(p, r), i))
  {
    var line := LineAhead(p, r, i);
    CrossingMeasures(p, r, i, line);
  }

  lemma HitMeets(x: int, y: int, deg: int, i: nat, j: nat)
    requires var ax, ay := AxisOf(x, FpCos(deg)), AxisOf(y, FpSin(deg));
             Hits(CellOf(x, y), ax, ay, FpCos(deg), FpSin(deg), i, j) && i <= 14 && j <= 14
    ensures Meets(x, y, FpCos(deg), FpSin(deg), i, j, Latest(AxisOf(x, FpCos(deg)), AxisOf(y, FpSin(deg)), i, j))
  {
    hide FpSin, MapSolid, Crossing, WallBehind, Unhit, Gap;
    var rx, ry := FpCos(deg), FpSin(deg);
    var ax, ay := AxisOf(x, rx), AxisOf(y, ry);
    SineBounds(deg);
    SineBounds(deg + 90);
    assert (deg + 90) % 180 != 0 || deg % 180 != 0;
    AxisSpaced(x, deg + 90);
    AxisSpaced(y, deg);
    if rx == 0 {
      ParallelNeverTaken(ax, ay, i, j);
    } else if ry == 0 {
      ParallelNeverTakenY(ax, ay, i, j);
    }
    if i > 0 {
      CrossedLine(x, rx, i - 1, CellAfter(CellOf(x, y), rx, ry, i, j).x);
    }
    if j > 0 {
      CrossedLine(y, ry, j - 1, CellAfter(CellOf(x, y), rx, ry, i, j).y);
    }
  }

  // The ray ends at its first solid cell, in the order of the crossings.
  ghost predicate Hits(c: Cell, x: Axis, y: Axis, rx: int, ry: int, i: nat, j: nat) {
    && Taken(x, y, i, j) && i + j > 0 && !Open(CellAfter(c, rx, ry, i, j))
    && Unhit(c, x, y, rx, ry, i + j)
  }

  // The cells after fewer than n crossings are open.
  ghost predicate Unhit(c: Cell, x: Axis, y: Axis, rx: int, ry: int, n: nat) {
    forall i: nat, j: nat :: Taken(x, y, i, j) && i + j < n ==> Open(CellAfter(c, rx, ry, i, j))
  }

  lemma UnhitMore(c: Cell, x: Axis, y: Axis, rx: int, ry: int, i: nat, j: nat)
    requires Spaced(x) && Spaced(y) && Taken(x, y, i, j)
    requires Unhit(c, x, y, rx, ry, i + j) && Open(CellAfter(c, rx, ry, i, j))
    ensures Unhit(c, x, y, rx, ry, i + j + 1)
  {
    hide Taken, Spaced, MapSolid;
    forall i': nat, j': nat | Taken(x, y, i', j') && i' + j' < i + j + 1
      ensures Open(CellAfter(c, rx, ry, i', j'))
    {
      if i' + j' == i + j {
        TakenUnique(x, y, i, j, i', j');
      }
    }
  }

  // A ray ends in one place only.
  lemma HitUnique(c: Cell, x: Axis, y: Axis, rx: int, ry: int, i: nat, j: nat, i': nat, j': nat)
    requires Spaced(x) && Spaced(y) && Hits(c, x, y, rx, ry, i, j) && Hits(c, x, y, rx, ry, i', j')
    ensures i == i' && j == j'
  {
    hide MapSolid, Taken, Spaced;
    if i + j == i' + j' {
      TakenUnique(x, y, i, j, i', j');
    }
  }

  // An open cell has at most 13 more open ones in a row on either side.
  lemma OpenNear(c: Cell, rx: int, ry: int, i: nat, j: nat)
    requires Open(c) && Open(CellAfter(c, rx, ry, i, j))
    ensures i <= 13 && j <= 13
  {
    hide MapSolid;
    var d := CellAfter(c, rx, ry, i, j);
    if !(1 <= c.x <= 14 && 1 <= c.y <= 14) {
      BorderSolid(c.x, c.y);
    }
    if !(1 <= d.x <= 14 && 1 <= d.y <= 14) {
      BorderSolid(d.x, d.y);
    }
  }

  // What the walk adds up to fits in 32 bits.
  lemma CrossingFits(a: Axis, i: nat)
    requires Spaced(a) && i <= 14
    ensures 0 <= Crossing(a, i) && Int32(Crossing(a, i))
  {
    Monotone(i, a.delta, 65536000);
    assert i * a.delta >= 0;
  }

  datatype Frame = Frame(esc: bool, up: bool, down: bool, left: bool, right: bool)

  // Cells next to each other along one axis, or the same cell.
  predicate Adjacent(c: Cell, d: Cell) {
    Abs(c.x - d.x) + Abs(c.y - d.y) <= 1
  }

  // A walk through open cells, from neighbour to neighbour.
  ghost predicate Walk(path: seq<Cell>) {
    && |path| > 0 && (forall k :: 0 <= k < |path| ==> Open(path[k]))
    && (forall k :: 0 < k < |path| ==> Adjacent(path[k - 1], path[k]))
  }

  // The movement along one axis, in a frame.
  function Stride(deg: int, sine: bool): int {
    FpMul(if sine then FpSin(deg) else FpCos(deg), 65536 / 10)
  }

  lemma StrideShort(deg: int, sine: bool)
    ensures -6553 <= Stride(deg, sine) <= 6553
  {
    hide FpSin;
    SineBounds(deg);
    SineBounds(deg + 90);
  }

  // It is a tenth of the direction, rounded down.
  lemma StrideIsTenth(deg: int)
    ensures -16 < 10 * Stride(deg, false) - FpCos(deg) <= 7
    ensures -16 < 10 * Stride(deg, true) - FpSin(deg) <= 7
  {
    hide FpSin;
    SineBounds(deg);
    SineBounds(deg + 90);
  }

  // Less than a cell moves at most to the next cell.
  lemma NextCell(p: int, d: int)
    requires -6553 <= d <= 6553
    ensures Abs(ToInt(p + d) - ToInt(p)) <= 1
  {
  }

  lemma Start()
    ensures CellOf(8 * 65536, 8 * 65536) == Cell(8, 8) && Walk([Cell(8, 8)])
  {
    assert MAP[8][8] == 0;
  }

  lemma WalkEnd(path: seq<Cell>)
    requires Walk(path)
    ensures |path| > 0 && Open(path[|path| - 1])
  {
  }

  lemma WalkOn(path: seq<Cell>, c: Cell)
    requires Walk(path) && Open(c) && Adjacent(path[|path| - 1], c)
    ensures Walk(path + [c])
  {
    hide Open, Adjacent;
  }

  lemma NoneTaken(c: Cell, x: Axis, y: Axis, rx: int, ry: int)
    ensures Taken(x, y, 0, 0) && CellAfter(c, rx, ry, 0, 0) == c && Unhit(c, x, y, rx, ry, 0)
    ensures Crossing(x, 0) == x.first && Crossing(y, 0) == y.first && Latest(x, y, 0, 0) == 0
  {
  }

  lemma HitIs(c: Cell, x: Axis, y: Axis, rx: int, ry: int, i: nat, j: nat)
    requires Taken(x, y, i, j) && i + j > 0 && !Open(CellAfter(c, rx, ry, i, j)) && Unhit(c, x, y, rx, ry, i + j)
    ensures Hits(c, x, y, rx, ry, i, j)
  {
  }

  lemma CrossingStep(a: Axis, i: nat)
    requires Spaced(a) && i <= 13
    ensures Crossing(a, i + 1) == Crossing(a, i) + a.delta
    ensures Int32(Crossing(a, i)) && Int32(Crossing(a, i + 1))
  {
    CrossingFits(a, i);
    CrossingFits(a, i + 1);
  }

  // ---------- the keys ----------

  datatype Camera = Camera(x: int, y: int, angle: int)

  // A stride in direction s along x, then along y, each only into an open cell.
  function Moved(c: Camera, s: int): Camera {
    var nx, ny := c.x + s * Stride(c.angle, false), c.y + s * Stride(c.angle, true);
    var x := if MapSolid(ToInt(nx), ToInt(c.y)) then c.x else nx;
    Camera(x, if MapSolid(ToInt(x), ToInt(ny)) then c.y else ny, c.angle)
  }

  function Turned(c: Camera, turn: int): Camera { c.(angle := (c.angle + turn) % 360) }

  // One frame: the keys held, in the order they are looked at.
  function Steered(c: Camera, f: Frame): Camera {
    var c1 := if f.up then Moved(c, 1) else c;
    var c2 := if f.down then Moved(c1, -1) else c1;
    var c3 := if f.left then Turned(c2, -3) else c2;
    if f.right then Turned(c3, 3) else c3
  }

  // All frames, up to the one with Escape.
  function Driven(c: Camera, keys: seq<Frame>): Camera
    decreases |keys|
  {
    if keys == [] || keys[0].esc then c else Driven(Steered(c, keys[0]), keys[1..])
  }

  // The turns to the right less those to the left, before Escape.
  function Turns(keys: seq<Frame>): int {
    if keys == [] || keys[0].esc then 0
    else (if keys[0].right then 1 else 0) - (if keys[0].left then 1 else 0) + Turns(keys[1..])
  }

  lemma DrivenOn(c: Camera, keys: seq<Frame>, k: nat)
    requires k < |keys|
    ensures Driven(c, keys[k..]) == if keys[k].esc then c else Driven(Steered(c, keys[k]), keys[k + 1..])
  {
    assert keys[k..][1..] == keys[k + 1..];
  }

  lemma DrivenOut(c: Camera, keys: seq<Frame>)
    ensures Driven(c, keys[|keys|..]) == c
  {
  }

  // The angle is three degrees for each turn.
  lemma {:induction false} AngleIsTurns(c: Camera, keys: seq<Frame>)
    requires 0 <= c.angle < 360
    ensures Driven(c, keys).angle == (c.angle + 3 * Turns(keys)) % 360
    decreases |keys|
  {
    hide Steered;
    if !(keys == [] || keys[0].esc) {
      var next := Steered(c, keys[0]);
      SteeredAngle(c, keys[0]);
      AngleIsTurns(next, keys[1..]);
      SumTurns(c.angle, 3 * ((if keys[0].right then 1 else 0) - (if keys[0].left then 1 else 0)), 3 * Turns(keys[1..]));
    }
  }

  lemma SteeredAngle(c: Camera, f: Frame)
    requires 0 <= c.angle < 360
    ensures Steered(c, f).angle == (c.angle + 3 * ((if f.right then 1 else 0) - (if f.left then 1 else 0))) % 360
  {
    hide Stride, MapSolid, ToInt, FpSin;
  }

  lemma TurnedAngle(angle: int)
    requires 0 <= angle < 360 && angle % 3 == 0
    ensures (angle - 3 + 360) % 360 == (angle - 3) % 360
    ensures 0 <= (angle - 3) % 360 < 360 && (angle - 3) % 360 % 3 == 0
    ensures 0 <= (angle + 3) % 360 < 360 && (angle + 3) % 360 % 3 == 0
  {
  }

  lemma SumTurns(angle: int, turn: int, more: int)
    ensures ((angle + turn) % 360 + more) % 360 == (angle + turn + more) % 360
  {
  }

  // Up goes ahead, a tenth of a cell in the direction of the camera, and Down goes back.
  // A wall stops the movement along its own axis only.
  lemma KeysMove(c: Camera, back: bool)
    ensures var d := Steered(c, Frame(false, !back, back, false, false));
            var s := if back then -1 else 1;
            && d.angle == c.angle
            && (d.x == c.x || -16 < 10 * s * (d.x - c.x) - FpCos(c.angle) <= 7)
            && (d.y == c.y || -16 < 10 * s * (d.y - c.y) - FpSin(c.angle) <= 7)
            && (d.x == c.x && FpCos(c.angle) >= 16 ==> MapSolid(ToInt(c.x + s * Stride(c.angle, false)), ToInt(c.y)))
            && (d.y == c.y && FpSin(c.angle) >= 16 ==> MapSolid(ToInt(d.x), ToInt(c.y + s * Stride(c.angle, true))))
  {
    hide FpSin, FpCos, MapSolid, ToInt, Stride;
    StrideIsTenth(c.angle);
  }

  class Raycaster {
    var camX: int
    var camY: int
    var camAngle: int
    ghost var path: seq<Cell> // the cells the camera has been in

    function Place(): Camera
      reads this
    {
      Camera(camX, camY, camAngle)
    }

    ghost predicate Valid()
      reads this
    {
      && 0 <= camAngle < 360 && camAngle % 3 == 0
      && |path| > 0 && Walk(path) && path[|path| - 1] == CellOf(camX, camY)
    }

    constructor ()
      ensures Valid() && path == [Cell(8, 8)]
    {
      camX, camY, camAngle := 8 * 65536, 8 * 65536, 0;
      path := [Cell(8, 8)];
    }

    static method AxisSetup(p: int, m: int, r: int) returns (delta: int, tMax: int)
      requires m == ToInt(p) && Abs(r) <= 65536
      ensures Axis(tMax, delta) == AxisOf(p, r)
    {
      if Abs(r) < 10 {
        delta := 1000 * 65536;
        tMax := 1000 * 65536;
      } else {
        delta := Abs(FpDiv(65536, r));
        if r > 0 {
          tMax := FpMul((m + 1) * 65536 - p, FpDiv(65536, r));
        } else {
          tMax := FpMul(p - m * 65536, FpDiv(65536, 0 - r));
        }
      }
    }

    method CastRay(rayAngle: int) returns (dist: int)
      requires Valid()
      ensures var deg := rayAngle % 360;
              var x, y := AxisOf(camX, FpCos(deg)), AxisOf(camY, FpSin(deg));
              exists i: nat, j: nat ::
                && Hits(CellOf(camX, camY), x, y, FpCos(deg), FpSin(deg), i, j) && i + j <= 27
                && Meets(camX, camY, FpCos(deg), FpSin(deg), i, j, Latest(x, y, i, j))
                && dist == Corrected(Latest(x, y, i, j), deg, camAngle)
    {
      hide FpSin, Taken, Spaced, MapSolid, Latest, Unhit, Crossing, AxisOf, Walk, Meets, Hits;
      var deg := Turn(rayAngle);
      var rx := FpCos(deg);
      var ry := FpSin(deg);
      var mx := ToInt(camX);
      var my := ToInt(camY);
      var stepX := if rx > 0 then 1 else -1;
      var stepY := if ry > 0 then 1 else -1;
      SineBounds(deg);
      SineBounds(deg + 90);
      var deltaX, tMaxX := AxisSetup(camX, mx, rx);
      var deltaY, tMaxY := AxisSetup(camY, my, ry);
      ghost var c, x, y := CellOf(camX, camY), Axis(tMaxX, deltaX), Axis(tMaxY, deltaY);
      AxisSpaced(camX, deg + 90);
      AxisSpaced(camY, deg);
      WalkEnd(path);
      NoneTaken(c, x, y, rx, ry);
      dist := 0;
      ghost var i: nat, j: nat := 0, 0;
      var step := 0;
      while step < 64
        invariant step == i + j <= 64 && Taken(x, y, i, j) && Cell(mx, my) == CellAfter(c, rx, ry, i, j)
        invariant tMaxX == Crossing(x, i) && tMaxY == Crossing(y, j) && dist == Latest(x, y, i, j)
        invariant Open(Cell(mx, my)) && Unhit(c, x, y, rx, ry, i + j)
      {
        OpenNear(c, rx, ry, i, j);
        UnhitMore(c, x, y, rx, ry, i, j);
        TakeNext(x, y, i, j);
        CrossingStep(x, i);
        CrossingStep(y, j);
        if tMaxX < tMaxY {
          dist := tMaxX;
          tMaxX := tMaxX + deltaX;
          mx := mx + stepX;
          i := i + 1;
        } else {
          dist := tMaxY;
          tMaxY := tMaxY + deltaY;
          my := my + stepY;
          j := j + 1;
        }
        assert Int32(tMaxX) && Int32(tMaxY);
        step := step + 1;
        if MapSolid(mx, my) {
          break;
        }
      }
      if Open(Cell(mx, my)) {
        OpenNear(c, rx, ry, i, j);
        assert false;
      }
      HitIs(c, x, y, rx, ry, i, j);
      HitMeets(camX, camY, deg, i, j);
      var diff := deg - camAngle;
      diff := Remainder(diff + 180 + 360, 360) - 180;
      var cosDiff := FpCos(if diff < 0 then 0 - diff else diff);
      if cosDiff > 100 {
        dist := FpMul(dist, cosDiff);
      }
      if dist <= 0 {
        dist := 65536 / 4;
      }
    }

    method Move(forward: bool)
      requires Valid()
      modifies this`camX, this`camY, this`path
      ensures Valid() && |path| == |old(path)| + 2 && path[..|old(path)|] == old(path) && path[0] == old(path)[0]
      ensures Place() == Moved(old(Place()), if forward then 1 else -1)
    {
      hide FpSin, MapSolid, Walk, ToInt, FpMul;
      var dx := FpMul(FpCos(camAngle), 65536 / 10);
      var dy := FpMul(FpSin(camAngle), 65536 / 10);
      StrideShort(camAngle, false);
      StrideShort(camAngle, true);
      var nx := if forward then camX + dx else camX - dx;
      var ny := if forward then camY + dy else camY - dy;
      NextCell(camX, nx - camX);
      NextCell(camY, ny - camY);
      WalkEnd(path);
      if !MapSolid(ToInt(nx), ToInt(camY)) {
        camX := nx;
      }
      WalkOn(path, CellOf(camX, camY));
      path := path + [CellOf(camX, camY)];
      if !MapSolid(ToInt(camX), ToInt(ny)) {
        camY := ny;
      }
      WalkOn(path, CellOf(camX, camY));
      path := path + [CellOf(camX, camY)];
    }

    // Any keys, for any number of frames.
    method RayRun(keys: seq<Frame>)
      modifies this
      ensures Valid() && path[0] == Cell(8, 8)
      ensures Place() == Driven(Camera(8 * 65536, 8 * 65536, 0), keys) && camAngle == 3 * Turns(keys) % 360
    {
      hide FpSin, MapSolid, Walk, Moved, FpMul, CellOf, Driven, Turns;
      camX, camY, camAngle := 8 * 65536, 8 * 65536, 0;
      path := [Cell(8, 8)];
      Start();
      ghost var start := Place();
      AngleIsTurns(start, keys);
      assert keys[0..] == keys;
      for k := 0 to |keys|
        invariant Valid() && path[0] == Cell(8, 8)
        invariant Driven(Place(), keys[k..]) == Driven(start, keys)
      {
        DrivenOn(Place(), keys, k);
        if keys[k].esc {
          break;
        }
        if keys[k].up {
          Move(true);
        }
        if keys[k].down {
          Move(false);
        }
        TurnedAngle(camAngle);
        if keys[k].left {
          camAngle := (camAngle - 3 + 360) % 360;
        }
        TurnedAngle(camAngle);
        if keys[k].right {
          camAngle := (camAngle + 3) % 360;
        }
      }
      DrivenOut(Place(), keys);
    }
  }
}
