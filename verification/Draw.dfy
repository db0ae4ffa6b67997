// The integer rasterisers: Bresenham's line and the incremental circle, drawn
// into a clipped back buffer.

module Draw {
  import opened Machine

  type Color = c: nat | c < 0x1_0000_0000

  datatype Point = Point(x: int, y: int)

  const BACK_PIXELS: nat := 1280 * 800

  function Max(m: nat, n: nat): nat { if m < n then n else m }

  lemma IndexFits(p: Point, width: nat, height: nat)
    requires 0 <= p.x < width && 0 <= p.y < height
    ensures 0 <= p.y * width + p.x < width * height
  {
    assert (p.y + 1) * width <= height * width;
  }

  lemma IndexApart(p: Point, q: Point, width: nat)
    requires 0 <= p.x < width && 0 <= p.y && 0 <= q.x < width && 0 <= q.y && p != q
    ensures p.y * width + p.x != q.y * width + q.x
  {
    if p.y < q.y {
      assert (p.y + 1) * width <= q.y * width;
    } else if q.y < p.y {
      assert (q.y + 1) * width <= p.y * width;
    }
  }

  // ---------- lines ----------

  // Within half a pixel of the line, measured along the axis it advances slowest on.
  predicate Near(p0: Point, p1: Point, p: Point) {
    2 * Abs((p1.x - p0.x) * (p.y - p0.y) - (p1.y - p0.y) * (p.x - p0.x)) <= Max(Abs(p1.x - p0.x), Abs(p1.y - p0.y))
  }

  // Of the two pixels half a pixel away, the tests settle on the one further along the
  // slower axis.
  predicate Settled(dx: nat, ady: nat, d: int) {
    if ady <= dx then 2 * d == 0 - dx ==> dx == 0 else 2 * d != ady
  }

  predicate InRange(m: int, n: int, k: int) { m <= k <= n || n <= k <= m }

  // Not beyond either end, and settled.
  predicate Chosen(p0: Point, p1: Point, p: Point) {
    && InRange(p0.x, p1.x, p.x) && InRange(p0.y, p1.y, p.y)
    && Settled(Abs(p1.x - p0.x), Abs(p1.y - p0.y),
               Abs(p1.x - p0.x) * Abs(p.y - p0.y) - Abs(p1.y - p0.y) * Abs(p.x - p0.x))
  }

  // Steps of the longer side taken so far.
  function Progress(p0: Point, p: Point): nat {
    Max(Abs(p.x - p0.x), Abs(p.y - p0.y))
  }

  predicate Neighbours(p: Point, q: Point) {
    p != q && Abs(p.x - q.x) <= 1 && Abs(p.y - q.y) <= 1
  }

  // A connected run of chosen pixels that starts at p0 and stays half a pixel from the line.
  ghost predicate Run(path: seq<Point>, p0: Point, p1: Point) {
    && |path| > 0 && path[0] == p0
    && (forall k :: 0 <= k < |path| ==>
          Near(p0, p1, path[k]) && Chosen(p0, p1, path[k]) && Progress(p0, path[k]) == k)
    && (forall k :: 0 < k < |path| ==> Neighbours(path[k - 1], path[k]))
  }

  // Such a run from one end to the other, one pixel for each step of the longer side.
  ghost predicate Straight(path: seq<Point>, p0: Point, p1: Point) {
    Run(path, p0, p1) && |path| == Progress(p0, p1) + 1 && path[|path| - 1] == p1
  }

  // After a steps along x and b along y: err is fixed by a and b, and D is half a pixel at most.
  predicate Bresenham(dx: nat, ady: nat, a: nat, b: nat, err: int) {
    && err == dx * (b + 1) - ady * (a + 1)
    && 2 * Abs(dx * b - ady * a) <= Max(dx, ady) && Settled(dx, ady, dx * b - ady * a)
    && a <= dx && b <= ady && (if ady <= dx then b <= a else a <= b)
  }

  // The two tests of the loop body, taken on the same error.
  predicate StepsX(ady: nat, err: int) { 2 * err >= 0 - ady }

  predicate StepsY(dx: nat, err: int) { 2 * err <= dx }

  lemma OneMore(m: nat, n: nat)
    ensures m * (n + 1) == m * n + m && m * (n + 2) == m * n + 2 * m
  {
  }

  lemma Within(m: nat, n: nat, k: nat)
    requires 2 * Abs(m * n - m * k) <= m && m > 0
    ensures n == k
  {
    Distribute(m, n, k);
    Scale(m, n - k);
  }

  lemma Distribute(m: int, n: int, k: int)
    ensures m * (n - k) == m * n - m * k
  {
  }

  lemma Positive(m: nat, n: nat)
    ensures m * n >= 0
  {
  }

  // When the longer side is used up, so is the shorter.
  lemma BothEnd(dx: nat, ady: nat, a: nat, b: nat, err: int)
    requires Bresenham(dx, ady, a, b, err)
    ensures Max(a, b) == Max(dx, ady) <==> a == dx && b == ady
  {
    if ady <= dx {
      if a == dx && dx > 0 {
        assert dx * b - ady * dx == dx * b - dx * ady;
        Within(dx, b, ady);
      }
    } else if b == ady {
      assert dx * ady - ady * a == ady * dx - ady * a;
      Within(ady, dx, a);
    }
  }

  // The tests keep the distance d = dx * b - ady * a within bounds.
  lemma DistanceKept(dx: nat, ady: nat, d: int, err: int)
    requires err == d + dx - ady && 2 * Abs(d) <= Max(dx, ady) && Settled(dx, ady, d)
    ensures var d' := d - (if StepsX(ady, err) then ady else 0) + if StepsY(dx, err) then dx else 0;
            2 * Abs(d') <= Max(dx, ady) && Settled(dx, ady, d')
    ensures if ady <= dx then StepsX(ady, err) else StepsY(dx, err)
  {
  }

  // Taking the steps the tests ask for keeps the error law and the bound, and
  // always advances along the longer side.
  lemma BresenhamStep(dx: nat, ady: nat, a: nat, b: nat, err: int)
    requires Bresenham(dx, ady, a, b, err) && !(a == dx && b == ady)
    ensures var i, j := StepsX(ady, err), StepsY(dx, err);
            && Bresenham(dx, ady, if i then a + 1 else a, if j then b + 1 else b,
                         err - (if i then ady else 0) + if j then dx else 0)
            && (if ady <= dx then i else j)
  {
    var a', b' := if StepsX(ady, err) then a + 1 else a, if StepsY(dx, err) then b + 1 else b;
    BothEnd(dx, ady, a, b, err);
    OneMore(dx, b);
    OneMore(ady, a);
    DistanceKept(dx, ady, dx * b - ady * a, err);
    if ady <= dx {
      StepBounds(dx, ady, a', b');
    } else {
      StepBounds(ady, dx, b', a');
    }
  }

  lemma StepOn(dx: nat, ady: nat, a: nat, b: nat, err: int)
    requires Bresenham(dx, ady, a, b, err) && !(a == dx && b == ady)
    ensures a <= dx && b <= ady
    ensures var i, j := StepsX(ady, err), StepsY(dx, err);
            var a', b' := if i then a + 1 else a, if j then b + 1 else b;
            && Bresenham(dx, ady, a', b', err - (if i then ady else 0) + if j then dx else 0)
            && 2 * Abs(dx * b' - ady * a') <= Max(dx, ady) && Max(a', b') == Max(a, b) + 1
            && a' <= dx && b' <= ady && Settled(dx, ady, dx * b' - ady * a')
  {
    BresenhamStep(dx, ady, a, b, err);
  }

  lemma Regroup(dx: nat, ady: nat, a: nat, b: nat)
    ensures dx * b - ady * a == dx * (b - a) + (dx - ady) * a
    ensures dx * b - ady * a == dx * (b - ady) + ady * (dx - a)
  {
    assert ady * dx == dx * ady;
  }

  // The bound keeps the slower side from overshooting or overtaking.
  lemma StepBounds(dx: nat, ady: nat, a: nat, b: nat)
    requires 2 * Abs(dx * b - ady * a) <= dx && ady <= dx && 0 < dx
    ensures a <= dx ==> b <= ady
    ensures b <= a
  {
    Regroup(dx, ady, a, b);
    Scale(dx, b - a);
    Scale(dx, b - ady);
    Positive(dx - ady, a);
    if a <= dx {
      Positive(ady, dx - a);
    }
  }

  // The pixel after a steps along x and b along y, in the directions of p1.
  function Reached(p0: Point, p1: Point, a: nat, b: nat): Point {
    Point(if p0.x < p1.x then p0.x + a else p0.x - a, if p0.y < p1.y then p0.y + b else p0.y - b)
  }

  lemma Signs(m: int, n: int)
    ensures (-m) * n == -(m * n) && m * (-n) == -(m * n) && (-m) * (-n) == m * n
  {
  }

  // Directions drop out of the distance.
  lemma ReachedNear(p0: Point, p1: Point, a: nat, b: nat)
    ensures var p, dx, ady := Reached(p0, p1, a, b), Abs(p1.x - p0.x), Abs(p1.y - p0.y);
            && Progress(p0, p) == Max(a, b)
            && (Near(p0, p1, p) <==> 2 * Abs(dx * b - ady * a) <= Max(dx, ady))
            && (a <= dx && b <= ady ==> (p == p1 <==> a == dx && b == ady))
            && (a <= dx && b <= ady && Settled(dx, ady, dx * b - ady * a) ==> Chosen(p0, p1, p))
  {
    var dx, ady := Abs(p1.x - p0.x), Abs(p1.y - p0.y);
    Cross(p1.x - p0.x, p1.y - p0.y, Reached(p0, p1, a, b).x - p0.x, Reached(p0, p1, a, b).y - p0.y, dx, ady, a, b);
  }

  lemma Cross(u: int, v: int, s: int, t: int, dx: int, ady: int, a: int, b: int)
    requires (u == dx && s == a) || (u == -dx && s == -a)
    requires (v == ady && t == b) || (v == -ady && t == -b)
    ensures Abs(u * t - v * s) == Abs(dx * b - ady * a)
  {
    Signs(dx, b);
    Signs(ady, a);
  }

  // A line is drawn the same from pixel to pixel: the next one extends the run.
  lemma RunExtends(path: seq<Point>, p0: Point, p1: Point, a: nat, b: nat, a': nat, b': nat)
    requires Run(path, p0, p1) && path[|path| - 1] == Reached(p0, p1, a, b) && |path| == Max(a, b) + 1
    requires a <= a' <= a + 1 && b <= b' <= b + 1 && Max(a', b') == Max(a, b) + 1
    requires var dx, ady := Abs(p1.x - p0.x), Abs(p1.y - p0.y);
             && 2 * Abs(dx * b' - ady * a') <= Progress(p0, p1)
             && a' <= dx && b' <= ady && Settled(dx, ady, dx * b' - ady * a')
    ensures Run(path + [Reached(p0, p1, a', b')], p0, p1)
  {
    hide Near, Chosen, Settled;
    ReachedNear(p0, p1, a', b');
    assert Neighbours(Reached(p0, p1, a, b), Reached(p0, p1, a', b'));
  }

  // The slower axis: only one count of steps is near and settled.
  lemma OneCount(dx: nat, ady: nat, a: int, b: int, c: int)
    requires 0 < dx && ady <= dx && 2 * Abs(dx * b - ady * a) <= dx && 2 * Abs(dx * c - ady * a) <= dx
    requires 2 * (dx * b - ady * a) != 0 - dx && 2 * (dx * c - ady * a) != 0 - dx
    ensures b == c
  {
    Distribute(dx, b, c);
    Scale(dx, b - c);
    Scale(dx, c - b);
  }

  lemma OneOther(dx: nat, ady: nat, b: int, a: int, c: int)
    requires 0 < ady && dx < ady && 2 * Abs(dx * b - ady * a) <= ady && 2 * Abs(dx * b - ady * c) <= ady
    requires 2 * (dx * b - ady * a) != ady && 2 * (dx * b - ady * c) != ady
    ensures a == c
  {
    Distribute(ady, a, c);
    Scale(ady, a - c);
    Scale(ady, c - a);
  }

  // Such a pixel in terms of the steps along each axis.
  lemma ChosenReached(p0: Point, p1: Point, p: Point) returns (a: nat, b: nat)
    requires Near(p0, p1, p) && Chosen(p0, p1, p)
    ensures p == Reached(p0, p1, a, b) && Progress(p0, p) == Max(a, b)
    ensures var dx, ady := Abs(p1.x - p0.x), Abs(p1.y - p0.y);
            && 2 * Abs(dx * b - ady * a) <= Max(dx, ady) && Settled(dx, ady, dx * b - ady * a)
            && a <= dx && b <= ady
  {
    a, b := Abs(p.x - p0.x), Abs(p.y - p0.y);
    ReachedNear(p0, p1, a, b);
  }

  // The pixel at each step of the longer side is one and the same.
  lemma PixelUnique(p0: Point, p1: Point, p: Point, q: Point)
    requires Near(p0, p1, p) && Chosen(p0, p1, p) && Near(p0, p1, q) && Chosen(p0, p1, q)
    requires Progress(p0, p) == Progress(p0, q)
    ensures p == q
  {
    hide Near, Chosen, Reached, Progress;
    var dx: nat, ady: nat := Abs(p1.x - p0.x), Abs(p1.y - p0.y);
    var a, b := ChosenReached(p0, p1, p);
    var c, d := ChosenReached(p0, p1, q);
    if ady <= dx {
      if dx > 0 {
        StepBounds(dx, ady, a, b);
        StepBounds(dx, ady, c, d);
        OneCount(dx, ady, a, b, d);
      }
    } else {
      StepBounds(ady, dx, b, a);
      StepBounds(ady, dx, d, c);
      OneOther(dx, ady, b, a, c);
    }
  }

  // So the ends alone say which pixels a line has.
  lemma LineUnique(path: seq<Point>, other: seq<Point>, p0: Point, p1: Point)
    requires Straight(path, p0, p1) && Straight(other, p0, p1)
    ensures path == other
  {
    forall k | 0 <= k < |path|
      ensures path[k] == other[k]
    {
      PixelUnique(p0, p1, path[k], other[k]);
    }
  }

  lemma LineStarts(p0: Point, p1: Point)
    ensures Reached(p0, p1, 0, 0) == p0 && Run([p0], p0, p1)
    ensures Bresenham(Abs(p1.x - p0.x), Abs(p1.y - p0.y), 0, 0, Abs(p1.x - p0.x) - Abs(p1.y - p0.y))
  {
    ReachedNear(p0, p1, 0, 0);
  }

  lemma LineEnds(p0: Point, p1: Point, a: nat, b: nat, err: int)
    requires Bresenham(Abs(p1.x - p0.x), Abs(p1.y - p0.y), a, b, err)
    ensures Max(a, b) <= Progress(p0, p1)
    ensures Reached(p0, p1, a, b) == p1 ==> Max(a, b) == Progress(p0, p1)
    ensures Reached(p0, p1, a, b) != p1 ==> Max(a, b) < Progress(p0, p1)
  {
    ReachedNear(p0, p1, a, b);
    BothEnd(Abs(p1.x - p0.x), Abs(p1.y - p0.y), a, b, err);
    OneMore(Abs(p1.x - p0.x), b);
    OneMore(Abs(p1.y - p0.y), a);
  }

  predicate CommonDivisor(g: nat, m: nat, n: nat) {
    g >= 1 && m % g == 0 && n % g == 0
  }

  // The largest multiple of g that is half of m at most.
  function Half(m: nat, g: nat): int
    requires g >= 1
  {
    g * (m / (2 * g))
  }

  // The condition on the sides of a line under which no value overflows.
  ghost predicate LineFits(dx: nat, ady: nat) {
    && dx < 0x8000_0000 && ady < 0x8000_0000
    && exists g: nat :: CommonDivisor(g, dx, ady) && SidesFit(dx, ady, g)
  }

  predicate SidesFit(dx: nat, ady: nat, g: nat)
    requires g >= 1
  {
    if ady <= dx then
      2 * (dx - ady + Half(dx, g)) < 0x8000_0000 && 2 * ady - Half(dx, g) - g <= 0x8000_0000
    else
      2 * (ady - dx + Half(ady, g)) <= 0x8000_0000 && (dx > 0 ==> ady + Half(ady, g) <= 0x8000_0000)
  }

  lemma SidesBelow(dx: nat, ady: nat)
    requires LineFits(dx, ady)
    ensures dx < 0x8000_0000 && ady < 0x8000_0000
  {
  }

  function NextError(dx: nat, ady: nat, err: int): int {
    err - (if StepsX(ady, err) then ady else 0) + if StepsY(dx, err) then dx else 0
  }

  // What one turn of the loop computes fits: twice the error, and the error
  // between the two steps and after them.
  predicate TurnFits(dx: nat, ady: nat, err: int) {
    Int32(2 * err) && (StepsX(ady, err) ==> Int32(err - ady)) && Int32(NextError(dx, ady, err))
  }

  // So do n turns.
  predicate TurnsFit(dx: nat, ady: nat, err: int, n: nat)
    decreases n
  {
    n == 0 || (TurnFits(dx, ady, err) && TurnsFit(dx, ady, NextError(dx, ady, err), n - 1))
  }

  lemma Multiple(m: nat, g: nat)
    requires g >= 1 && m % g == 0
    ensures m == g * (m / g)
  {
  }

  lemma Factor(g: int, u: int, v: int, a: int, b: int)
    ensures g * u * b - g * v * a == g * (u * b - v * a)
  {
    assert g * u * b == g * (u * b) && g * v * a == g * (v * a);
    Distribute(g, u * b, v * a);
  }

  lemma Grouped(g: nat, n: int)
    ensures 2 * g * n == 2 * (g * n) == g * (2 * n)
  {
  }

  // Half, in multiples of g: u of them are m, and h of them half of it.
  lemma HalfIs(m: nat, g: nat) returns (u: int, h: int)
    requires CommonDivisor(g, m, m)
    ensures m == g * u && Half(m, g) == g * h && 0 <= 2 * h <= u <= 2 * h + 1
  {
    u := m / g;
    h := u / 2;
    Multiple(m, g);
    Grouped(g, h);
    Distribute(g, u, 2 * h);
    Scale(g, u - 2 * h);
    Quotient(m, 2 * g, h, m - 2 * g * h);
  }

  // Multiples of g on either side of half of m.
  lemma MultipleFits(m: nat, g: nat, w: int)
    requires CommonDivisor(g, m, m)
    ensures 2 * (g * w) <= m ==> g * w <= Half(m, g)
    ensures 2 * (g * w) >= m ==> g * w >= m - Half(m, g)
    ensures 2 * (g * w) < m ==> g * w <= m - Half(m, g) - g
  {
    hide CommonDivisor, Half;
    var u, h := HalfIs(m, g);
    Grouped(g, w);
    Distribute(g, 2 * w, u);
    Scale(g, 2 * w - u);
    Distribute(g, w, h);
    Scale(g, w - h);
    Distribute(g, w, u - h);
    Distribute(g, u, h);
    Scale(g, w - (u - h));
    Distribute(g, w, u - h - 1);
    Distribute(g, u - h, 1);
    Scale(g, w - (u - h - 1));
  }

  // The distance is a multiple of every common divisor of the sides.
  lemma DistanceMultiple(dx: nat, ady: nat, a: nat, b: nat, g: nat) returns (w: int)
    requires CommonDivisor(g, dx, ady)
    ensures dx * b - ady * a == g * w
  {
    Multiple(dx, g);
    Multiple(ady, g);
    Factor(g, dx / g, ady / g, a, b);
    w := dx / g * b - ady / g * a;
  }

  // So the values of a turn fit from every state of the loop.
  lemma StateFits(dx: nat, ady: nat, a: nat, b: nat, err: int, g: nat)
    requires Bresenham(dx, ady, a, b, err) && dx < 0x8000_0000 && ady < 0x8000_0000
    requires CommonDivisor(g, dx, ady) && SidesFit(dx, ady, g)
    ensures Int32(2 * err) && (StepsX(ady, err) ==> Int32(err - ady))
  {
    var w := DistanceMultiple(dx, ady, a, b, g);
    OneMore(dx, b);
    OneMore(ady, a);
    Signs(g, w);
    hide Half;
    if ady <= dx {
      MultipleFits(dx, g, w);
      MultipleFits(dx, g, -w);
    } else {
      MultipleFits(ady, g, -w);
      Multiple(dx, g);
      Distribute(g, w, -(dx / g));
      Signs(g, dx / g);
      MultipleFits(ady, g, w + dx / g);
    }
  }

  lemma TurnOk(dx: nat, ady: nat, a: nat, b: nat, err: int)
    requires Bresenham(dx, ady, a, b, err) && LineFits(dx, ady) && !(a == dx && b == ady)
    ensures TurnFits(dx, ady, err)
  {
    hide Bresenham, SidesFit;
    var g :| CommonDivisor(g, dx, ady) && SidesFit(dx, ady, g);
    StateFits(dx, ady, a, b, err, g);
    BresenhamStep(dx, ady, a, b, err);
    StateFits(dx, ady, if StepsX(ady, err) then a + 1 else a, if StepsY(dx, err) then b + 1 else b,
              NextError(dx, ady, err), g);
  }

  // One turn on, the longer side has advanced.
  lemma NextState(dx: nat, ady: nat, a: nat, b: nat, err: int) returns (a': nat, b': nat)
    requires Bresenham(dx, ady, a, b, err) && Max(a, b) < Max(dx, ady)
    ensures Bresenham(dx, ady, a', b', NextError(dx, ady, err)) && Max(a', b') == Max(a, b) + 1
    ensures !(a == dx && b == ady)
  {
    BothEnd(dx, ady, a, b, err);
    StepOn(dx, ady, a, b, err);
    a', b' := if StepsX(ady, err) then a + 1 else a, if StepsY(dx, err) then b + 1 else b;
  }

  lemma {:induction false} RestOk(dx: nat, ady: nat, a: nat, b: nat, err: int, n: nat)
    requires Bresenham(dx, ady, a, b, err) && LineFits(dx, ady) && Max(a, b) + n == Max(dx, ady)
    ensures TurnsFit(dx, ady, err, n)
    decreases n
  {
    hide Bresenham, LineFits, TurnFits, NextError;
    if n > 0 {
      var a', b' := NextState(dx, ady, a, b, err);
      TurnOk(dx, ady, a, b, err);
      RestOk(dx, ady, a', b', NextError(dx, ady, err), n - 1);
    }
  }

  // ---------- the condition is exact ----------

  // The error law and the half pixel leave one state for each step of the longer side.
  lemma SameState(dx: nat, ady: nat, a: nat, b: nat, err: int, a': nat, b': nat, err': int)
    requires Bresenham(dx, ady, a, b, err) && Bresenham(dx, ady, a', b', err') && Max(a, b) == Max(a', b')
    ensures a == a' && b == b' && err == err'
  {
    Distribute(dx, b, b');
    Distribute(ady, a, a');
    Scale(dx, b - b');
    Scale(ady, a - a');
  }

  // So every such state is one that the loop comes to.
  lemma {:induction false} Visited(dx: nat, ady: nat, a: nat, b: nat, err: int, n: nat, c: nat, d: nat, last: int)
    requires Bresenham(dx, ady, a, b, err) && Max(a, b) + n == Max(dx, ady) && TurnsFit(dx, ady, err, n)
    requires Bresenham(dx, ady, c, d, last) && Max(a, b) <= Max(c, d) < Max(dx, ady)
    ensures TurnFits(dx, ady, last)
    decreases n
  {
    hide Bresenham, TurnFits, NextError;
    if Max(c, d) == Max(a, b) {
      SameState(dx, ady, a, b, err, c, d, last);
    } else {
      var a', b' := NextState(dx, ady, a, b, err);
      Visited(dx, ady, a', b', NextError(dx, ady, err), n - 1, c, d, last);
    }
  }

  // A common divisor that is a sum of multiples of the two.
  lemma {:induction false} Bezout(m: nat, n: nat) returns (g: nat, u: int, v: int)
    requires m > 0
    ensures CommonDivisor(g, m, n) && m * u + n * v == g
    decreases n
  {
    if n == 0 {
      g, u, v := m, 1, 0;
    } else {
      var u', v';
      g, u', v' := Bezout(n, m % n);
      u, v := v', u' - m / n * v';
      Divides(m, n, g);
      Unwound(m, n, u', v');
    }
  }

  lemma Divides(m: nat, n: nat, g: nat)
    requires n > 0 && CommonDivisor(g, n, m % n)
    ensures m % g == 0
  {
    var q, r := m / n, m % n;
    Multiple(n, g);
    Multiple(r, g);
    assert m == n * q + r;
    assert n * q == g * (n / g) * q == g * (n / g * q);
    Distribute(g, n / g * q, -(r / g));
    Signs(g, r / g);
    Positive(n / g, q);
    Quotient(m, g, n / g * q + r / g, 0);
  }

  lemma Unwound(m: nat, n: nat, u: int, v: int)
    requires n > 0
    ensures m * v + n * (u - m / n * v) == n * u + m % n * v
  {
    var q, r := m / n, m % n;
    assert m == n * q + r;
    assert m * v == n * q * v + r * v;
    Distribute(n, u, q * v);
    assert n * (q * v) == n * q * v;
  }

  // Every small sum of multiples of the sides is the distance of some pixel.
  lemma Met(m: nat, n: nat, u: int, v: int) returns (p: nat, q: nat)
    requires n <= m && 0 < m && 2 * Abs(m * u + n * v) <= m
    ensures p < m && q <= n && m * q - n * p == m * u + n * v
  {
    var t := (-v) / m;
    p := (-v) % m;
    assert v == -(m * t) - p;
    var w := u - n * t;
    Turned(m, n, u, v, t, p);
    Distribute(m, w, n);
    Scale(m, w - n);
    Scale(m, w);
    Positive(n, p);
    Distribute(n, m, p);
    Positive(n, m - p - 1);
    Distribute(n, m - p, 1);
    q := w;
  }

  lemma Turned(m: int, n: int, u: int, v: int, t: int, p: int)
    requires v == -(m * t) - p
    ensures m * (u - n * t) - n * p == m * u + n * v
  {
    Distribute(m, u, n * t);
    assert m * (n * t) == n * (m * t);
    Distribute(n, -(m * t), p);
    Signs(n, m * t);
  }

  // There the loop stands once.
  lemma StateAt(dx: nat, ady: nat, u: int, v: int) returns (a: nat, b: nat)
    requires 0 < Max(dx, ady) && 2 * Abs(dx * u + ady * v) <= Max(dx, ady) && Settled(dx, ady, dx * u + ady * v)
    ensures Bresenham(dx, ady, a, b, dx * u + ady * v + dx - ady) && Max(a, b) < Max(dx, ady)
  {
    if ady <= dx {
      a, b := Met(dx, ady, u, v);
      StepBounds(dx, ady, a, b);
    } else {
      Signs(dx, u);
      Signs(ady, v);
      b, a := Met(ady, dx, -v, -u);
      StepBounds(ady, dx, b, a);
    }
    OneMore(dx, b);
    OneMore(ady, a);
  }

  // The values of the turn at distance d.
  lemma TurnAt(dx: nat, ady: nat, g: nat, u: int, v: int, k: int, d: int)
    requires 0 < Max(dx, ady) && dx * u + ady * v == g && TurnsFit(dx, ady, dx - ady, Max(dx, ady))
    requires d == g * k && 2 * Abs(d) <= Max(dx, ady) && Settled(dx, ady, d)
    ensures Int32(2 * (d + dx - ady)) && (2 * (d + dx) >= ady ==> Int32(d + dx - 2 * ady))
  {
    Spread(dx, ady, u, v, k);
    LineStarts(Point(0, 0), Point(dx, ady));
    hide Bresenham, TurnsFit, Settled;
    var a, b := StateAt(dx, ady, u * k, v * k);
    Visited(dx, ady, 0, 0, dx - ady, Max(dx, ady), a, b, d + dx - ady);
  }

  lemma Spread(m: int, n: int, u: int, v: int, k: int)
    ensures (m * u + n * v) * k == m * (u * k) + n * (v * k)
  {
  }

  // Half of m and the rest of it, in multiples of g.
  lemma HalfSplits(m: nat, g: nat) returns (h: int, k: int)
    requires CommonDivisor(g, m, m) && 0 < m
    ensures Half(m, g) == g * h && g * k == m - Half(m, g)
    ensures 0 <= 2 * Half(m, g) <= m && g <= g * k && m <= 2 * (g * k) <= m + g
  {
    hide CommonDivisor, Half;
    var u;
    u, h := HalfIs(m, g);
    k := u - h;
    Distribute(g, u, h);
    Grouped(g, h);
    Grouped(g, k);
    Distribute(g, u, 2 * h);
    Distribute(g, 2 * k, u);
    Scale(g, u - 2 * h);
    Scale(g, 2 * k - u);
    Scale(g, 2 * k - u - 1);
    Distribute(g, 2 * k - u, 1);
    Scale(g, h);
    Scale(g, k);
    Scale(g, u);
  }

  // A line whose turns all fit meets the condition, with the greatest common
  // divisor of its sides: some pixels lie as far off it as they may.
  lemma FlatNeeds(dx: nat, ady: nat, g: nat, u: int, v: int)
    requires TurnsFit(dx, ady, dx - ady, dx) && ady <= dx && 0 < dx
    requires CommonDivisor(g, dx, ady) && dx * u + ady * v == g
    ensures SidesFit(dx, ady, g)
  {
    hide TurnsFit, Half;
    var h, k := HalfSplits(dx, g);
    TurnAt(dx, ady, g, u, v, h, Half(dx, g));
    Distribute(g, k, 1);
    Signs(g, k - 1);
    hide CommonDivisor;
    TurnAt(dx, ady, g, u, v, -(k - 1), -(dx - Half(dx, g) - g));
  }

  lemma SteepNeeds(dx: nat, ady: nat, g: nat, u: int, v: int)
    requires TurnsFit(dx, ady, dx - ady, ady) && dx < ady
    requires CommonDivisor(g, dx, ady) && dx * u + ady * v == g
    ensures SidesFit(dx, ady, g)
  {
    hide TurnsFit, Half;
    var h, k := HalfSplits(ady, g);
    Signs(g, h);
    TurnAt(dx, ady, g, u, v, -h, -Half(ady, g));
    if dx > 0 {
      var x: int := dx / g;
      Multiple(dx, g);
      Distribute(g, k, x);
      Scale(g, x);
      hide CommonDivisor;
      TurnAt(dx, ady, g, u, v, k - x, ady - Half(ady, g) - dx);
    }
  }

  lemma OnlyIfFits(dx: nat, ady: nat) returns (g: nat)
    requires TurnsFit(dx, ady, dx - ady, Max(dx, ady)) && 0 < Max(dx, ady)
    ensures CommonDivisor(g, dx, ady) && SidesFit(dx, ady, g)
  {
    hide TurnsFit;
    var u, v;
    if ady <= dx {
      g, u, v := Bezout(dx, ady);
      FlatNeeds(dx, ady, g, u, v);
    } else {
      g, v, u := Bezout(ady, dx);
      SteepNeeds(dx, ady, g, u, v);
    }
  }

  // The condition holds exactly when no value of any turn overflows.
  lemma LineFitsExactly(dx: nat, ady: nat)
    ensures LineFits(dx, ady) <==>
            dx < 0x8000_0000 && ady < 0x8000_0000 && TurnsFit(dx, ady, dx - ady, Max(dx, ady))
  {
    hide TurnsFit;
    if LineFits(dx, ady) {
      LineStarts(Point(0, 0), Point(dx, ady));
      RestOk(dx, ady, 0, 0, dx - ady, Max(dx, ady));
    }
    if dx < 0x8000_0000 && ady < 0x8000_0000 && TurnsFit(dx, ady, dx - ady, Max(dx, ady)) {
      if Max(dx, ady) == 0 {
        assert CommonDivisor(1, dx, ady) && SidesFit(dx, ady, 1);
      } else {
        var g := OnlyIfFits(dx, ady);
      }
    }
  }

  lemma LineSteps(path: seq<Point>, p0: Point, p1: Point, a: nat, b: nat, err: int)
    requires var dx, ady := Abs(p1.x - p0.x), Abs(p1.y - p0.y);
             Bresenham(dx, ady, a, b, err) && Reached(p0, p1, a, b) != p1
    requires Run(path, p0, p1) && path[|path| - 1] == Reached(p0, p1, a, b) && |path| == Max(a, b) + 1
    ensures var dx, ady := Abs(p1.x - p0.x), Abs(p1.y - p0.y);
            var i, j := StepsX(ady, err), StepsY(dx, err);
            var a', b' := if i then a + 1 else a, if j then b + 1 else b;
            && Bresenham(dx, ady, a', b', err - (if i then ady else 0) + if j then dx else 0)
            && Run(path + [Reached(p0, p1, a', b')], p0, p1) && Max(a', b') == Max(a, b) + 1
            && Reached(p0, p1, a', b') == Point(
                 Reached(p0, p1, a, b).x + if i then (if p0.x < p1.x then 1 else -1) else 0,
                 Reached(p0, p1, a, b).y + if j then (if p0.y < p1.y then 1 else -1) else 0)
  {
    hide Run, Bresenham, StepsX, StepsY;
    var dx, ady := Abs(p1.x - p0.x), Abs(p1.y - p0.y);
    StepOn(dx, ady, a, b, err);
    ReachedNear(p0, p1, a, b);
    var i, j := StepsX(ady, err), StepsY(dx, err);
    RunExtends(path, p0, p1, a, b, if i then a + 1 else a, if j then b + 1 else b);
  }

  // ---------- circles ----------

  // One turn of the circle loop.
  function NextX(x: int, err: int): int { if err <= 0 then x else x - 1 }

  function NextErr(x: int, y: int, err: int): int {
    if err <= 0 then err + 2 * (y + 1) + 1 else err + 2 * ((y + 1) - (x - 1)) + 1
  }

  // The x of each pixel of the octant from height y on.
  function Octant(x: int, y: int, err: int): seq<int>
    decreases x - y + 1
  {
    if x < y then [] else [x] + Octant(NextX(x, err), y + 1, NextErr(x, y, err))
  }

  // No further than a pixel inside the circle of radius r, and hardly outside it.
  predicate OnRing(r: int, x: int, y: int) {
    (r - 1) * (r - 1) - 1 <= x * x + y * y <= r * r + 1
  }

  // The error is the distance from the circle with a correction for the next step.
  predicate ArcLaw(r: nat, x: int, y: int, err: int) {
    && err == x * x + y * y - r * r + 2 * y + (r - x)
    && 0 <= y && -1 <= x <= r && x >= y - 2
    && x * x + y * y - r * r >= -2 * r
    && (x >= y ==> x * x + y * y - r * r <= 1)
  }

  lemma ArcStep(r: nat, x: int, y: int, err: int)
    requires ArcLaw(r, x, y, err) && x >= y
    ensures ArcLaw(r, NextX(x, err), y + 1, NextErr(x, y, err))
  {
    assert (y + 1) * (y + 1) == y * y + 2 * y + 1;
    assert (x - 1) * (x - 1) == x * x - 2 * x + 1;
  }

  lemma RingFromLaw(r: nat, x: int, y: int, err: int)
    requires ArcLaw(r, x, y, err)
    ensures (r - 1) * (r - 1) - 1 <= x * x + y * y && (x >= y ==> OnRing(r, x, y))
  {
    assert (r - 1) * (r - 1) == r * r - 2 * r + 1;
  }

  // The octant stays on the ring, comes down by at most one pixel a step, and
  // ends where it meets its mirror image.
  ghost predicate IsArc(xs: seq<int>, r: int, y: int) {
    && (forall k :: 0 <= k < |xs| ==> xs[k] >= y + k && OnRing(r, xs[k], y + k))
    && (forall k :: 0 < k < |xs| ==> xs[k - 1] - 1 <= xs[k] <= xs[k - 1])
    && (|xs| > 0 ==> xs[|xs| - 1] <= y + |xs|)
    && (|xs| > 0 ==> (r - 1) * (r - 1) - 1 <= 2 * (y + |xs|) * (y + |xs|))
  }

  lemma ArcPrepend(rest: seq<int>, r: int, x: int, x': int, y: int)
    requires IsArc(rest, r, y + 1) && OnRing(r, x, y) && 0 <= y <= x && x - 1 <= x' <= x
    requires if rest == [] then x' < y + 1 else rest[0] == x'
    requires (r - 1) * (r - 1) - 1 <= x' * x' + (y + 1) * (y + 1)
    ensures IsArc([x] + rest, r, y)
  {
    hide OnRing;
    var xs := [x] + rest;
    if rest == [] {
      Square(x', y + 1);
      assert 2 * (y + 1) * (y + 1) == 2 * ((y + 1) * (y + 1));
    } else {
      assert xs[|xs| - 1] == rest[|rest| - 1];
      assert y + 1 + |rest| == y + |xs|;
    }
    forall k | 0 <= k < |xs|
      ensures xs[k] >= y + k && OnRing(r, xs[k], y + k)
    {
      if k > 0 {
        assert y + 1 + (k - 1) == y + k;
        assert rest[k - 1] >= y + 1 + (k - 1) && OnRing(r, rest[k - 1], y + 1 + (k - 1));
      }
    }
    forall k | 0 < k < |xs|
      ensures xs[k - 1] - 1 <= xs[k] <= xs[k - 1]
    {
      if k > 1 {
        assert rest[k - 2] - 1 <= rest[k - 1] <= rest[k - 2];
      }
    }
  }

  lemma Square(m: int, n: nat)
    requires Abs(m) <= n
    ensures m * m <= n * n
  {
    assert (n - m) * (n + m) >= 0;
    assert (n - m) * (n + m) == n * n - m * m;
  }

  lemma {:induction false} OctantIsArc(r: nat, x: int, y: int, err: int)
    requires ArcLaw(r, x, y, err)
    ensures IsArc(Octant(x, y, err), r, y)
    decreases x - y + 1
  {
    if x >= y {
      var x', err' := NextX(x, err), NextErr(x, y, err);
      var xs, rest := Octant(x, y, err), Octant(x', y + 1, err');
      ArcStep(r, x, y, err);
      RingFromLaw(r, x, y, err);
      RingFromLaw(r, x', y + 1, err');
      OctantIsArc(r, x', y + 1, err');
      ArcPrepend(rest, r, x, x', y);
      assert [x] + rest == xs;
    }
  }

  // From (x, y) the next row is a pixel further in.
  predicate TurnsIn(r: int, x: int, y: int) {
    x * x + y * y - r * r + 2 * y + (r - x) > 0
  }

  // Which pixels the octant has, by their positions alone: each row keeps the x of the one
  // before or goes a pixel in, and the rows go on while y is no more than x.
  ghost predicate Descends(xs: seq<int>, r: int, y: int) {
    && (forall k :: 0 < k < |xs| ==> xs[k] == if TurnsIn(r, xs[k - 1], y + k - 1) then xs[k - 1] - 1 else xs[k - 1])
    && (forall k :: 0 <= k < |xs| ==> y + k <= xs[k])
    && (xs != [] ==>
          var (x, last) := (xs[|xs| - 1], y + |xs| - 1);
          (if TurnsIn(r, x, last) then x - 1 else x) < last + 1)
  }

  lemma {:induction false} OctantDescends(r: nat, x: int, y: int, err: int)
    requires ArcLaw(r, x, y, err)
    ensures Descends(Octant(x, y, err), r, y)
    ensures x >= y ==> Octant(x, y, err) != [] && Octant(x, y, err)[0] == x
    decreases x - y + 1
  {
    if x >= y {
      var x', err' := NextX(x, err), NextErr(x, y, err);
      ArcStep(r, x, y, err);
      OctantDescends(r, x', y + 1, err');
      assert err > 0 <==> TurnsIn(r, x, y);
      DescendsFrom(r, x, y, Octant(x', y + 1, err'));
    }
  }

  lemma DescendsFrom(r: int, x: int, y: int, rest: seq<int>)
    requires Descends(rest, r, y + 1) && y <= x
    requires var x' := if TurnsIn(r, x, y) then x - 1 else x;
             if rest == [] then x' < y + 1 else rest[0] == x'
    ensures Descends([x] + rest, r, y)
  {
    hide TurnsIn;
    var xs := [x] + rest;
    forall k | 0 < k < |xs|
      ensures xs[k] == if TurnsIn(r, xs[k - 1], y + k - 1) then xs[k - 1] - 1 else xs[k - 1]
    {
      if k > 1 {
        assert y + 1 + (k - 1) - 1 == y + k - 1;
        assert rest[k - 1] == if TurnsIn(r, rest[k - 2], y + k - 1) then rest[k - 2] - 1 else rest[k - 2];
      }
    }
    forall k | 0 <= k < |xs|
      ensures y + k <= xs[k]
    {
      if k > 0 {
        assert y + 1 + (k - 1) <= rest[k - 1];
      }
    }
    if rest != [] {
      assert xs[|xs| - 1] == rest[|rest| - 1] && y + 1 + |rest| - 1 == y + |xs| - 1;
    }
  }

  // The whole octant of a circle, from its rightmost pixel.
  lemma CircleDescends(r: nat)
    ensures var xs := Octant(r, 0, 0); Descends(xs, r, 0) && xs != [] && xs[0] == r
  {
    OctantDescends(r, r, 0, 0);
  }

  // The octant pixel (x, y) mirrored into all eight.
  predicate Mirrored(u: int, v: int, x: int, y: int) {
    (Abs(u) == x && Abs(v) == y) || (Abs(u) == y && Abs(v) == x)
  }

  // The rows between the mirror images.
  predicate Spanned(u: int, v: int, x: int, y: int) {
    (Abs(v) == y && Abs(u) <= x) || (Abs(v) == x && Abs(u) <= y)
  }

  ghost predicate InRing(xs: seq<int>, u: int, v: int) {
    exists k :: 0 <= k < |xs| && Mirrored(u, v, xs[k], k)
  }

  ghost predicate InFill(xs: seq<int>, u: int, v: int) {
    exists k :: 0 <= k < |xs| && Spanned(u, v, xs[k], k)
  }

  lemma CircleArc(r: nat)
    ensures IsArc(Octant(r, 0, 0), r, 0) && Octant(r, 0, 0) != [] && Octant(r, 0, 0)[0] == r
  {
    OctantIsArc(r, r, 0, 0);
  }

  lemma ArcAt(xs: seq<int>, r: int, k: nat)
    requires IsArc(xs, r, 0) && k < |xs|
    ensures xs[k] >= k && (r - 1) * (r - 1) - 1 <= xs[k] * xs[k] + k * k <= r * r + 1
  {
    assert xs[k] >= 0 + k && OnRing(r, xs[k], 0 + k);
  }

  lemma SquareOfAbs(u: int)
    ensures u * u == Abs(u) * Abs(u)
  {
  }

  // Every pixel drawn lies on the ring.
  lemma CircleIsThin(r: int, u: int, v: int)
    requires InRing(Octant(r, 0, 0), u, v)
    ensures OnRing(r, u, v)
  {
    var xs := Octant(r, 0, 0);
    if r < 0 {
      return;
    }
    CircleArc(r);
    var k :| 0 <= k < |xs| && Mirrored(u, v, xs[k], k);
    hide IsArc, Octant;
    ArcAt(xs, r, k);
    SquareOfAbs(u);
    SquareOfAbs(v);
  }

  // draw_circle_fill covers draw_circle.
  lemma FillCoversCircle(r: int, u: int, v: int)
    requires InRing(Octant(r, 0, 0), u, v)
    ensures InFill(Octant(r, 0, 0), u, v)
  {
    var xs := Octant(r, 0, 0);
    var k :| 0 <= k < |xs| && Mirrored(u, v, xs[k], k);
    assert Spanned(u, v, xs[k], k);
  }

  lemma {:induction false} Descent(xs: seq<int>, r: int, i: nat, j: int) returns (k: nat)
    requires IsArc(xs, r, 0) && i < |xs| && xs[|xs| - 1] <= j <= xs[i]
    ensures i <= k < |xs| && xs[k] == j
    decreases |xs| - i
  {
    k := i;
    if xs[i] != j {
      assert xs[i + 1 - 1] - 1 <= xs[i + 1];
      k := Descent(xs, r, i + 1, j);
    }
  }

  // The filled pixels form a disc without holes: nothing beyond the ring, and
  // everything inside it.
  lemma FillIsDisc(r: nat, u: int, v: int)
    ensures InFill(Octant(r, 0, 0), u, v) ==> u * u + v * v <= r * r + 1
    ensures u * u + v * v < (r - 1) * (r - 1) - 1 ==> InFill(Octant(r, 0, 0), u, v)
  {
    CircleArc(r);
    hide Octant, IsArc;
    var xs := Octant(r, 0, 0);
    SquareOfAbs(u);
    SquareOfAbs(v);
    if InFill(xs, u, v) {
      var k :| 0 <= k < |xs| && Spanned(u, v, xs[k], k);
      ArcAt(xs, r, k);
      if Abs(v) == k && Abs(u) <= xs[k] {
        Square(Abs(u), xs[k]);
      } else {
        Square(Abs(u), k);
      }
    }
    if u * u + v * v < (r - 1) * (r - 1) - 1 {
      InsideIsFilled(xs, r, u, v);
    }
  }

  lemma InsideIsFilled(xs: seq<int>, r: nat, u: int, v: int)
    requires IsArc(xs, r, 0) && xs != [] && u * u + v * v < (r - 1) * (r - 1) - 1
    ensures InFill(xs, u, v)
  {
    var i, j, n := if Abs(u) < Abs(v) then Abs(u) else Abs(v), Max(Abs(u), Abs(v)), |xs|;
    SquareOfAbs(u);
    SquareOfAbs(v);
    ArcEnd(xs, r);
    if i >= n {
      Square(n, i);
      Square(n, j);
      assert false;
    } else {
      ArcAt(xs, r, i);
      if j >= xs[i] {
        Square(xs[i], j);
        assert false;
      } else if Abs(v) <= Abs(u) {
        assert Spanned(u, v, xs[i], i);
      } else if j < n {
        ArcAt(xs, r, j);
        assert Spanned(u, v, xs[j], j);
      } else {
        var k := Descent(xs, r, i, j);
        assert Spanned(u, v, xs[k], k);
      }
    }
  }

  lemma ArcEnd(xs: seq<int>, r: int)
    requires IsArc(xs, r, 0) && xs != []
    ensures xs[|xs| - 1] <= |xs| && (r - 1) * (r - 1) - 1 <= |xs| * |xs| + |xs| * |xs|
  {
    assert 2 * (0 + |xs|) * (0 + |xs|) == |xs| * |xs| + |xs| * |xs|;
  }

  // From (r, 0) the octant moves between neighbours and ends next to its mirror
  // image on the diagonal, so the eight octants close up.
  lemma CircleIsClosed(r: nat)
    ensures var xs := Octant(r, 0, 0);
            && |xs| > 0 && xs[0] == r
            && (forall k :: 0 < k < |xs| ==> Neighbours(Point(xs[k - 1], k - 1), Point(xs[k], k)))
            && 0 <= xs[|xs| - 1] - (|xs| - 1) <= 1
  {
    CircleArc(r);
    hide OnRing, Octant;
    var xs := Octant(r, 0, 0);
    ArcEnd(xs, r);
    ArcAt(xs, r, |xs| - 1);
    forall k | 0 < k < |xs|
      ensures Neighbours(Point(xs[k - 1], k - 1), Point(xs[k], k))
    {
      assert xs[k - 1] - 1 <= xs[k] <= xs[k - 1];
    }
  }

  // The second turn is the first to come down.
  predicate ComesDown(r: int, x: int, y: int) {
    (y <= 1 ==> x == r) && (y >= 2 ==> x < r)
  }

  const WIDEST := 0x4000_0003

  // Halfway up the octant the two coordinates meet.
  lemma HeightBound(r: nat, x: int, y: int)
    requires 0 <= y <= x && x * x + y * y <= r * r + 1
    ensures 4 * y <= 3 * r + 4
  {
    Square(y, x);
    assert (3 * r + 5) * (3 * r + 5) == 9 * (r * r) + 30 * r + 25;
    assert 4 * y * (4 * y) == 16 * (y * y);
    SquareLess(4 * y, 3 * r + 5);
  }

  lemma SquareLess(m: nat, n: nat)
    requires m * m < n * n
    ensures m < n
  {
    if m >= n {
      Square(n, m);
    }
  }

  // Up to that radius every value of one turn of the loop fits an int.
  lemma CircleFits(r: nat, x: int, y: int, err: int)
    requires ArcLaw(r, x, y, err) && ComesDown(r, x, y) && x >= y && r <= WIDEST
    ensures Int32(2 * (y + 1) + 1) && Int32(NextErr(x, y, err)) && ComesDown(r, NextX(x, err), y + 1)
    ensures err > 0 ==> Int32(2 * (y + 1 - (x - 1)))
  {
    HeightBound(r, x, y);
    ArcStep(r, x, y, err);
    FirstTurns(r, x, y, err);
  }

  lemma FirstTurns(r: nat, x: int, y: int, err: int)
    requires ArcLaw(r, x, y, err) && ComesDown(r, x, y) && x >= y
    ensures y == 0 ==> err == 0 && NextErr(x, y, err) == 3
    ensures y == 1 ==> err == 3 && NextErr(x, y, err) == 10 - 2 * r
  {
    if y <= 1 {
      Cancel(r, x, y, err);
    }
  }

  lemma Cancel(r: nat, x: int, y: int, err: int)
    requires err == x * x + y * y - r * r + 2 * y + (r - x) && x == r && 0 <= y <= 1
    ensures err == 3 * y
  {
  }

  // And beyond it the second turn, at (r - 1, 2), no longer does.
  lemma RadiusLimit(r: nat)
    requires r >= 1
    ensures ComesDown(r, r, 1) && ArcLaw(r, r, 1, 3) && NextX(r, 3) == r - 1
    ensures Int32(2 * (2 - NextX(r, 3))) <==> r <= WIDEST
  {
  }

  predicate OnGrid(p: Point) { Int32(p.x) && Int32(p.y) }

  // A pixel of the line lies between its ends.
  lemma Between(p0: Point, p1: Point, a: nat, b: nat, err: int)
    requires Bresenham(Abs(p1.x - p0.x), Abs(p1.y - p0.y), a, b, err) && OnGrid(p0) && OnGrid(p1)
    ensures OnGrid(Reached(p0, p1, a, b))
  {
  }

  // The sides of a line and the directions along them.
  predicate Sides(p0: Point, p1: Point, dx: nat, ady: nat, sx: int, sy: int) {
    && dx == Abs(p1.x - p0.x) && ady == Abs(p1.y - p0.y)
    && sx == (if p0.x < p1.x then 1 else -1) && sy == (if p0.y < p1.y then 1 else -1)
  }

  lemma LineProgress(p0: Point, p1: Point, dx: nat, ady: nat, sx: int, sy: int, a: nat, b: nat, err: int)
    requires Sides(p0, p1, dx, ady, sx, sy) && Bresenham(dx, ady, a, b, err)
    ensures Max(a, b) <= Progress(p0, p1)
    ensures if Reached(p0, p1, a, b) == p1 then Max(a, b) == Progress(p0, p1) else Max(a, b) < Progress(p0, p1)
  {
    LineEnds(p0, p1, a, b, err);
  }

  // What the two tests of one turn lead to, in ints.
  lemma LineTurn(path: seq<Point>, p0: Point, p1: Point, dx: nat, ady: nat, sx: int, sy: int,
                 a: nat, b: nat, err: int)
    returns (a': nat, b': nat, q: Point)
    requires |path| == Max(a, b) + 1 && path[|path| - 1] == Reached(p0, p1, a, b) != p1
    requires Run(path, p0, p1) && Sides(p0, p1, dx, ady, sx, sy) && Bresenham(dx, ady, a, b, err)
    requires LineFits(dx, ady) && OnGrid(p0) && OnGrid(p1)
    ensures q == Reached(p0, p1, a', b') && OnGrid(q) && Run(path + [q], p0, p1) && Max(a', b') == Max(a, b) + 1
    ensures Int32(2 * err) && (StepsX(ady, err) ==> Int32(err - ady))
    ensures var err' := err - (if StepsX(ady, err) then ady else 0) + if StepsY(dx, err) then dx else 0;
            Int32(err') && Bresenham(dx, ady, a', b', err')
    ensures q.x == path[|path| - 1].x + if StepsX(ady, err) then sx else 0
    ensures q.y == path[|path| - 1].y + if StepsY(dx, err) then sy else 0
  {
    hide Run, LineFits, OnGrid, Bresenham, Reached, StepsX, StepsY;
    LineSteps(path, p0, p1, a, b, err);
    NotDone(p0, p1, a, b, err);
    TurnOk(dx, ady, a, b, err);
    a', b' := if StepsX(ady, err) then a + 1 else a, if StepsY(dx, err) then b + 1 else b;
    q := Reached(p0, p1, a', b');
    Between(p0, p1, a', b', err - (if StepsX(ady, err) then ady else 0) + if StepsY(dx, err) then dx else 0);
  }

  // A square of that radius around the centre has int coordinates.
  predicate Around(cx: int, cy: int, r: int) {
    Int32(cx - r) && Int32(cx + r) && Int32(cy - r) && Int32(cy + r)
  }

  // Before the end a step stays between the two ends.
  lemma NotDone(p0: Point, p1: Point, a: nat, b: nat, err: int)
    requires Bresenham(Abs(p1.x - p0.x), Abs(p1.y - p0.y), a, b, err) && Reached(p0, p1, a, b) != p1
    ensures !(a == Abs(p1.x - p0.x) && b == Abs(p1.y - p0.y))
  {
    ReachedNear(p0, p1, a, b);
  }

  lemma CircleStarts(r: int)
    ensures r >= 0 ==> ArcLaw(r, r, 0, 0)
    ensures Octant(r, 0, 0)[0..] == Octant(r, 0, 0)
    ensures forall u, v :: !InRing(Octant(r, 0, 0)[..0], u, v) && !InFill(Octant(r, 0, 0)[..0], u, v)
  {
  }

  lemma OctantDone(xs: seq<int>, x: int, y: nat, err: int)
    requires y <= |xs| && xs[y..] == Octant(x, y, err) && x < y
    ensures xs[..y] == xs
  {
  }

  lemma FillNext(xs: seq<int>, y: nat, cx: int, cy: int)
    requires y < |xs|
    ensures forall p: Point :: InFill(xs[..y + 1], p.x - cx, p.y - cy) <==>
              InFill(xs[..y], p.x - cx, p.y - cy) || Spanned(p.x - cx, p.y - cy, xs[y], y)
  {
    var all, part := xs[..y + 1], xs[..y];
    forall p: Point
      ensures InFill(all, p.x - cx, p.y - cy) <==>
              InFill(part, p.x - cx, p.y - cy) || Spanned(p.x - cx, p.y - cy, xs[y], y)
    {
      if InFill(part, p.x - cx, p.y - cy) {
        var k :| 0 <= k < |part| && Spanned(p.x - cx, p.y - cy, part[k], k);
        assert Spanned(p.x - cx, p.y - cy, all[k], k);
      }
      if Spanned(p.x - cx, p.y - cy, xs[y], y) {
        assert Spanned(p.x - cx, p.y - cy, all[y], y);
      }
    }
  }

  lemma OctantNext(xs: seq<int>, x: int, y: nat, err: int)
    requires y <= |xs| && xs[y..] == Octant(x, y, err) && x >= y
    ensures y < |xs| && xs[y] == x && xs[y + 1..] == Octant(NextX(x, err), y + 1, NextErr(x, y, err))
  {
    assert xs[y..][0] == xs[y] && xs[y..][1..] == xs[y + 1..];
  }

  lemma RingNext(xs: seq<int>, y: nat, cx: int, cy: int)
    requires y < |xs|
    ensures forall p: Point :: InRing(xs[..y + 1], p.x - cx, p.y - cy) <==>
              InRing(xs[..y], p.x - cx, p.y - cy) || Mirrored(p.x - cx, p.y - cy, xs[y], y)
  {
    var all, part := xs[..y + 1], xs[..y];
    forall p: Point
      ensures InRing(all, p.x - cx, p.y - cy) <==>
              InRing(part, p.x - cx, p.y - cy) || Mirrored(p.x - cx, p.y - cy, xs[y], y)
    {
      if InRing(part, p.x - cx, p.y - cy) {
        var k :| 0 <= k < |part| && Mirrored(p.x - cx, p.y - cy, part[k], k);
        assert Mirrored(p.x - cx, p.y - cy, all[k], k);
      }
      if Mirrored(p.x - cx, p.y - cy, xs[y], y) {
        assert Mirrored(p.x - cx, p.y - cy, all[y], y);
      }
    }
  }

  class Canvas {
    const back: array<Color>
    var ready: bool
    var width: nat
    var height: nat
    ghost var trace: seq<Point> // the pixels asked for, in order

    constructor ()
      ensures Valid() && !ready
    {
      back := new Color[BACK_PIXELS](_ => 0);
      ready, width, height, trace := false, 0, 0, [];
    }

    predicate Valid()
      reads this
    {
      back.Length == BACK_PIXELS && (ready ==> width * height <= BACK_PIXELS)
    }

    method DrawInit(width: nat, height: nat)
      requires back.Length == BACK_PIXELS && width * height <= BACK_PIXELS
      modifies this`ready, this`width, this`height
      ensures Valid() && ready && this.width == width && this.height == height
    {
      this.width, this.height, ready := width, height, true;
    }

    predicate OnScreen(p: Point)
      reads this
    {
      ready && 0 <= p.x < width && 0 <= p.y < height
    }

    function Pixel(p: Point): Color
      requires Valid()
      reads this, back
    {
      if OnScreen(p) then IndexFits(p, width, height); back[p.y * width + p.x] else 0
    }

    // Exactly the visible pixels asked for since the trace had n entries show the colour.
    twostate predicate Painted(n: nat, color: Color)
      requires old(Valid()) && Valid() && n <= |trace|
      reads this, back
    {
      forall p :: OnScreen(p) ==> Pixel(p) == if p in trace[n..] then color else old(Pixel(p))
    }

    method DrawPixel(x: CInt, y: CInt, color: Color)
      requires Valid()
      modifies back, this`trace
      ensures Valid() && trace == old(trace) + [Point(x, y)]
      ensures forall p :: OnScreen(p) ==> Pixel(p) == if p == Point(x, y) then color else old(Pixel(p))
    {
      trace := trace + [Point(x, y)];
      if !ready {
        return;
      }
      if x < 0 || y < 0 {
        return;
      }
      if x >= width || y >= height {
        return;
      }
      ghost var q := Point(x, y);
      IndexFits(q, width, height);
      back[y * width + x] := color;
      forall p | OnScreen(p)
        ensures Pixel(p) == if p == q then color else old(Pixel(p))
      {
        if p != q {
          IndexFits(p, width, height);
          IndexApart(p, q, width);
        }
      }
    }

    method DrawLine(x0: CInt, y0: CInt, x1: CInt, y1: CInt, color: Color)
      requires Valid() && LineFits(Abs(x1 - x0), Abs(y1 - y0))
      modifies back, this`trace
      ensures Valid() && |old(trace)| <= |trace| && trace[..|old(trace)|] == old(trace)
      ensures Straight(trace[|old(trace)|..], Point(x0, y0), Point(x1, y1))
      ensures Painted(|old(trace)|, color)
    {
      hide Near, Reached, Bresenham, Progress, Run, LineFits;
      SidesBelow(Abs(x1 - x0), Abs(y1 - y0));
      var x: CInt, y: CInt := x0, y0;
      var dx: CInt := if x1 - x0 < 0 then -(x1 - x0) else x1 - x0;
      var dy: CInt := -(if y1 - y0 < 0 then -(y1 - y0) else y1 - y0);
      var sx := if x0 < x1 then 1 else -1;
      var sy := if y0 < y1 then 1 else -1;
      var err: CInt := dx + dy;
      ghost var p0, p1, ady: nat, a, b := Point(x0, y0), Point(x1, y1), -dy, 0, 0;
      ghost var path := [p0];
      LineStarts(p0, p1);
      assert Sides(p0, p1, dx, ady, sx, sy);
      hide Sides;
      while true
        invariant |old(trace)| <= |trace|
        invariant Valid() && trace + [Point(x, y)] == old(trace) + path && Painted(|old(trace)|, color)
        invariant Run(path, p0, p1) && |path| == Max(a, b) + 1
        invariant Point(x, y) == path[|path| - 1] == Reached(p0, p1, a, b)
        invariant Bresenham(dx, ady, a, b, err)
        decreases Progress(p0, p1) - Max(a, b)
      {
        ghost var done := trace[|old(trace)|..];
        DrawPixel(x, y, color);
        assert trace[|old(trace)|..] == done + [Point(x, y)];
        assert trace == old(trace) + path;
        LineProgress(p0, p1, dx, ady, sx, sy, a, b, err);
        if x == x1 && y == y1 {
          break;
        }
        ghost var a', b', q := LineTurn(path, p0, p1, dx, ady, sx, sy, a, b, err);
        var e2: CInt := 2 * err;
        if e2 >= dy {
          err := err + dy;
          x := x + sx;
        }
        if e2 <= dx {
          err := err + dx;
          y := y + sy;
        }
        assert Point(x, y) == q;
        a, b, path := a', b', path + [q];
      }
    }

    method DrawFour(p: Point, q: Point, s: Point, t: Point, color: Color)
      requires Valid() && OnGrid(p) && OnGrid(q) && OnGrid(s) && OnGrid(t)
      modifies back, this`trace
      ensures Valid() && trace == old(trace) + [p, q, s, t]
      ensures forall o :: OnScreen(o) ==> Pixel(o) == if o in [p, q, s, t] then color else old(Pixel(o))
    {
      DrawPixel(p.x, p.y, color);
      DrawPixel(q.x, q.y, color);
      DrawPixel(s.x, s.y, color);
      DrawPixel(t.x, t.y, color);
    }

    // The eight calls of one turn of the circle loop.
    method DrawEight(cx: CInt, cy: CInt, x: CInt, y: CInt, color: Color)
      requires Valid() && 0 <= y <= x && Around(cx, cy, x)
      modifies back, this`trace
      ensures Valid() && |old(trace)| <= |trace| && trace[..|old(trace)|] == old(trace)
      ensures Painted(|old(trace)|, color)
      ensures forall p :: p in trace[|old(trace)|..] <==> Mirrored(p.x - cx, p.y - cy, x, y)
    {
      ghost var n := |trace|;
      DrawFour(Point(cx + x, cy + y), Point(cx + y, cy + x), Point(cx - y, cy + x), Point(cx - x, cy + y), color);
      ghost var m := |trace|;
      DrawFour(Point(cx - x, cy - y), Point(cx - y, cy - x), Point(cx + y, cy - x), Point(cx + x, cy - y), color);
      assert trace[n..] == trace[n..m] + trace[m..];
    }

    method DrawCircle(cx: CInt, cy: CInt, r: CInt, color: Color)
      requires Valid() && (r >= 0 ==> Around(cx, cy, r) && r <= WIDEST)
      modifies back, this`trace
      ensures Valid() && |old(trace)| <= |trace| && trace[..|old(trace)|] == old(trace)
      ensures Painted(|old(trace)|, color)
      ensures forall p :: p in trace[|old(trace)|..] <==> InRing(Octant(r, 0, 0), p.x - cx, p.y - cy)
    {
      hide Mirrored, InRing, Octant, ArcLaw;
      var x: CInt, y: CInt, err: CInt := r, 0, 0;
      ghost var xs, n := Octant(r, 0, 0), |trace|;
      CircleStarts(r);
      while x >= y
        invariant Valid() && n <= |trace| && trace[..n] == old(trace) && Painted(n, color)
        invariant x <= r && (r >= 0 ==> ArcLaw(r, x, y, err) && ComesDown(r, x, y))
        invariant 0 <= y <= |xs| && xs[y..] == Octant(x, y, err)
        invariant forall p :: p in trace[n..] <==> InRing(xs[..y], p.x - cx, p.y - cy)
        decreases x - y + 1
      {
        ghost var done, m := trace[n..], |trace|;
        DrawEight(cx, cy, x, y, color);
        assert trace[n..] == done + trace[m..];
        ArcStep(r, x, y, err);
        CircleFits(r, x, y, err);
        OctantNext(xs, x, y, err);
        RingNext(xs, y, cx, cy);
        y := y + 1;
        if err <= 0 {
          err := err + 2 * y + 1;
        } else {
          x := x - 1;
          var step: CInt := 2 * (y - x);
          err := err + step + 1;
        }
      }
      OctantDone(xs, x, y, err);
    }

    // One pair of rows of the fill.
    method DrawRows(lo: CInt, hi: CInt, above: CInt, below: CInt, color: Color)
      requires Valid() && Int32(hi + 1)
      modifies back, this`trace
      ensures Valid() && |old(trace)| <= |trace| && trace[..|old(trace)|] == old(trace)
      ensures Painted(|old(trace)|, color)
      ensures forall p :: p in trace[|old(trace)|..] <==> lo <= p.x <= hi && (p.y == above || p.y == below)
    {
      ghost var n := |trace|;
      var i: CInt := lo;
      while i <= hi
        invariant Valid() && n <= |trace| && trace[..n] == old(trace) && Painted(n, color)
        invariant forall p :: p in trace[n..] <==> lo <= p.x < i && p.x <= hi && (p.y == above || p.y == below)
        invariant lo <= i
        decreases hi - i + 1
      {
        ghost var done := trace[n..];
        DrawPixel(i, above, color);
        DrawPixel(i, below, color);
        assert trace[n..] == done + [Point(i, above), Point(i, below)];
        i := i + 1;
      }
    }

    method DrawCircleFill(cx: CInt, cy: CInt, r: CInt, color: Color)
      requires Valid() && (r >= 0 ==> Around(cx, cy, r) && Int32(cx + r + 1) && r <= WIDEST)
      modifies back, this`trace
      ensures Valid() && |old(trace)| <= |trace| && trace[..|old(trace)|] == old(trace)
      ensures Painted(|old(trace)|, color)
      ensures forall p :: p in trace[|old(trace)|..] <==> InFill(Octant(r, 0, 0), p.x - cx, p.y - cy)
    {
      hide InFill, Octant, ArcLaw;
      var x: CInt, y: CInt, err: CInt := r, 0, 0;
      ghost var xs, n := Octant(r, 0, 0), |trace|;
      CircleStarts(r);
      while x >= y
        invariant Valid() && n <= |trace| && trace[..n] == old(trace) && Painted(n, color)
        invariant x <= r && (r >= 0 ==> ArcLaw(r, x, y, err) && ComesDown(r, x, y))
        invariant 0 <= y <= |xs| && xs[y..] == Octant(x, y, err)
        invariant forall p :: p in trace[n..] <==> InFill(xs[..y], p.x - cx, p.y - cy)
        decreases x - y + 1
      {
        ghost var done, m := trace[n..], |trace|;
        FillTurn(cx, cy, x, y, color);
        assert trace[n..] == done + trace[m..];
        ArcStep(r, x, y, err);
        CircleFits(r, x, y, err);
        OctantNext(xs, x, y, err);
        FillNext(xs, y, cx, cy);
        y := y + 1;
        if err <= 0 {
          err := err + 2 * y + 1;
        } else {
          x := x - 1;
          var step: CInt := 2 * (y - x);
          err := err + step + 1;
        }
      }
      OctantDone(xs, x, y, err);
    }

    // The two inner loops of one turn.
    method FillTurn(cx: CInt, cy: CInt, x: CInt, y: CInt, color: Color)
      requires Valid() && 0 <= y <= x && Around(cx, cy, x) && Int32(cx + x + 1)
      modifies back, this`trace
      ensures Valid() && |old(trace)| <= |trace| && trace[..|old(trace)|] == old(trace)
      ensures Painted(|old(trace)|, color)
      ensures forall p :: p in trace[|old(trace)|..] <==> Spanned(p.x - cx, p.y - cy, x, y)
    {
      ghost var n := |trace|;
      DrawRows(cx - x, cx + x, cy + y, cy - y, color);
      ghost var done, m := trace[n..], |trace|;
      DrawRows(cx - y, cx + y, cy + x, cy - x, color);
      assert trace[n..] == done + trace[m..];
    }
  }
}
