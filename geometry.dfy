/** The two coordinate frames of the tracer, lattice discs and the
    direction-biased cost (pic2formula/edges2polylines.py). */
module Geometry {
  import opened Seqs

  /** A cell of the edge mask, as (row, column) indices. */
  datatype MaskPoint = MaskPoint(row: int, col: int)

  /** A point in the plot frame: x is the column, y is minus the row. */
  datatype PlotPoint = PlotPoint(x: int, y: int)

  /** `convert_imshow2plot`: the column becomes x and the negated row
      becomes y, so the image keeps its orientation and lies where x >= 0
      and y <= 0. */
  function ToPlot(p: MaskPoint): (q: PlotPoint)
    ensures p.row >= 0 && p.col >= 0 ==> q.x >= 0 && q.y <= 0
  {
    PlotPoint(p.col, -p.row)
  }

  /** `convert_plot2imshow`: the inverse conversion; on lattice points the
      truncation to int64 changes nothing. */
  function ToMask(q: PlotPoint): (p: MaskPoint)
    ensures ToPlot(p) == q
  {
    MaskPoint(-q.y, q.x)
  }

  /** Converting a mask cell to the plot frame and back gives the cell. */
  lemma MaskRoundTrip(p: MaskPoint)
    ensures ToMask(ToPlot(p)) == p
  {
  }

  /** Squared Euclidean distance; `distance` is its square root, so both
      order points the same way. */
  function SqDist(a: PlotPoint, b: PlotPoint): (d: nat)
    ensures d == 0 <==> a == b
  {
    var dx, dy := a.x - b.x, a.y - b.y;
    SquareZero(dx);
    SquareZero(dy);
    dx * dx + dy * dy
  }

  lemma SqDistSymmetric(a: PlotPoint, b: PlotPoint)
    ensures SqDist(a, b) == SqDist(b, a)
  {
    assert (a.x - b.x) * (a.x - b.x) == (b.x - a.x) * (b.x - a.x);
    assert (a.y - b.y) * (a.y - b.y) == (b.y - a.y) * (b.y - a.y);
  }

  // ---------------------------------------------------------------------
  // Small facts about squares

  lemma SquareZero(a: int)
    ensures a * a >= 0
    ensures a * a == 0 <==> a == 0
  {
    if a != 0 {
      if a > 0 { assert a * a >= a; } else { assert a * a == (-a) * (-a) >= -a; }
    }
  }

  lemma SquareMono(a: nat, b: nat)
    requires a <= b
    ensures a * a <= b * b
  {
    assert a * a <= a * b <= b * b;
  }

  /** |a| <= b exactly when a*a <= b*b, for a non-negative bound b. */
  lemma SquareAbs(a: int, b: nat)
    ensures -(b as int) <= a <= b <==> a * a <= b * b
    ensures a < -(b as int) || b < a ==> a * a >= (b + 1) * (b + 1)
  {
    var m: nat := if a < 0 then -a else a;
    assert a * a == m * m;
    if m <= b {
      SquareMono(m, b);
    } else {
      SquareMono(b + 1, m);
      assert (b + 1) * (b + 1) == b * b + 2 * b + 1;
    }
  }

  // ---------------------------------------------------------------------
  // Integer square root: `math.floor(math.sqrt(n))`

  function SqrtFrom(n: nat, k: nat): (r: nat)
    requires k * k <= n
    ensures r * r <= n < (r + 1) * (r + 1)
    decreases n - k
  {
    if (k + 1) * (k + 1) > n then k
    else
      assert k < n by { SquareMono(1, k + 1); }
      SqrtFrom(n, k + 1)
  }

  /** The largest `h` with `h * h <= n`. */
  function FloorSqrt(n: nat): (h: nat)
    ensures h * h <= n < (h + 1) * (h + 1)
  {
    SqrtFrom(n, 0)
  }

  /** `-h <= y <= h` is the same as `y * y <= n` when `h` is the floor of
      the square root of `n`. */
  lemma WithinFloorSqrt(y: int, n: nat)
    ensures -(FloorSqrt(n) as int) <= y <= FloorSqrt(n) <==> y * y <= n
  {
    SquareAbs(y, FloorSqrt(n));
  }

  // ---------------------------------------------------------------------
  // Lattice points of a disc: `points_inside_circle`

  /** The column of lattice points `center + (dx, dy)` for `dy` in `-h..h`. */
  function Column(center: PlotPoint, dx: int, h: nat): (col: seq<PlotPoint>)
    ensures |col| == 2 * h + 1
  {
    seq(2 * h + 1, i => PlotPoint(center.x + dx, center.y - h + i))
  }

  /** The columns for x-offsets `dx..r`, each cut at the circle of radius `r`. */
  function DiscFrom(center: PlotPoint, r: nat, dx: int): seq<PlotPoint>
    requires -(r as int) <= dx
    decreases r + 1 - dx
  {
    if dx > r then []
    else
      SquareAbs(dx, r);
      Column(center, dx, FloorSqrt(r * r - dx * dx)) + DiscFrom(center, r, dx + 1)
  }

  /** What `points_inside_circle(center, r)` returns for an integer radius:
      empty for a negative radius. */
  function Disc(center: PlotPoint, r: int): seq<PlotPoint> {
    if r < 0 then [] else DiscFrom(center, r, -r)
  }

  /** The loop of `points_inside_circle`: one column per x-offset. */
  method PointsInsideCircle(center: PlotPoint, r: int) returns (pl: seq<PlotPoint>)
    ensures pl == Disc(center, r)
  {
    pl := [];
    var ri := r;
    var x := -ri;
    while x <= ri
      invariant r >= 0 ==> -r <= x <= r + 1 && pl + DiscFrom(center, r, x) == Disc(center, r)
      invariant r < 0 ==> pl == []
      decreases ri + 1 - x
    {
      SquareAbs(x, r);
      var yi := FloorSqrt(r * r - x * x);
      pl := pl + Column(center, x, yi);
      x := x + 1;
    }
  }

  lemma ColumnMembers(center: PlotPoint, dx: int, h: nat, q: PlotPoint)
    ensures q in Column(center, dx, h) <==>
              q.x == center.x + dx && -(h as int) <= q.y - center.y <= h
  {
    var col := Column(center, dx, h);
    if q.x == center.x + dx && -(h as int) <= q.y - center.y <= h {
      assert col[q.y - center.y + h] == q;
    }
  }

  lemma {:induction false} DiscFromMembers(center: PlotPoint, r: nat, dx: int, q: PlotPoint)
    requires -(r as int) <= dx
    ensures q in DiscFrom(center, r, dx) <==>
              dx <= q.x - center.x && SqDist(q, center) <= r * r
    decreases r + 1 - dx
  {
    var X, Y := q.x - center.x, q.y - center.y;
    SquareAbs(X, r);
    SquareZero(Y);
    if dx <= r {
      SquareAbs(dx, r);
      var n := r * r - dx * dx;
      ColumnMembers(center, dx, FloorSqrt(n), q);
      WithinFloorSqrt(Y, n);
      DiscFromMembers(center, r, dx + 1, q);
    }
  }

  /** A disc holds exactly the lattice points within distance `r` of its
      centre (none for a negative radius). */
  lemma DiscMembers(center: PlotPoint, r: int, q: PlotPoint)
    ensures q in Disc(center, r) <==> r >= 0 && SqDist(q, center) <= r * r
  {
    if r >= 0 {
      DiscFromMembers(center, r, -r, q);
      SquareAbs(q.x - center.x, r);
      SquareZero(q.y - center.y);
    }
  }

  /** Column-major order: by x, then by y. */
  predicate LexLess(a: PlotPoint, b: PlotPoint) {
    a.x < b.x || (a.x == b.x && a.y < b.y)
  }

  predicate StrictlyOrdered(s: seq<PlotPoint>) {
    forall i, j :: 0 <= i < j < |s| ==> LexLess(s[i], s[j])
  }

  lemma {:induction false} DiscFromOrdered(center: PlotPoint, r: nat, dx: int)
    requires -(r as int) <= dx
    ensures StrictlyOrdered(DiscFrom(center, r, dx))
    decreases r + 1 - dx
  {
    if dx <= r {
      SquareAbs(dx, r);
      var col := Column(center, dx, FloorSqrt(r * r - dx * dx));
      var rest := DiscFrom(center, r, dx + 1);
      DiscFromOrdered(center, r, dx + 1);
      forall j | 0 <= j < |rest| ensures rest[j].x > center.x + dx {
        DiscFromMembers(center, r, dx + 1, rest[j]);
      }
      var s := col + rest;
      forall i, j | 0 <= i < j < |s| ensures LexLess(s[i], s[j]) {
        if j < |col| {
        } else if i < |col| {
          assert s[j] == rest[j - |col|];
        } else {
          assert s[i] == rest[i - |col|] && s[j] == rest[j - |col|];
        }
      }
    }
  }

  /** The points of a disc come in increasing x, then increasing y, so each
      lattice point occurs once. */
  lemma DiscOrdered(center: PlotPoint, r: int)
    ensures StrictlyOrdered(Disc(center, r))
    ensures NoDup(Disc(center, r))
  {
    if r >= 0 {
      DiscFromOrdered(center, r, -r);
    }
  }

  // ---------------------------------------------------------------------
  // Direction and cost

  /** A plane vector with real components. */
  datatype Vec = Vec(x: real, y: real)

  /** The predicted heading `(end - prev) + 0.47 * (prev - prev2)` before
      normalisation. */
  function Momentum(end: PlotPoint, prev: PlotPoint, prev2: PlotPoint): Vec {
    Vec((end.x - prev.x) as real + 0.47 * (prev.x - prev2.x) as real,
        (end.y - prev.y) as real + 0.47 * (prev.y - prev2.y) as real)
  }

  /** `cost_function`: squared distance minus 0.99 times the projection of
      the step onto the heading `d`. */
  function Cost(candidate: PlotPoint, end: PlotPoint, d: Vec): (c: real)
    ensures candidate == end ==> c == 0.0
    ensures d == Vec(0.0, 0.0) ==> c == SqDist(candidate, end) as real
  {
    var rx, ry := (candidate.x - end.x) as real, (candidate.y - end.y) as real;
    SqDist(candidate, end) as real - 0.99 * (rx * d.x + ry * d.y)
  }

  /** Of two candidates at the same distance from the end, the one further
      along the heading is strictly cheaper. */
  lemma DirectionalBias(a: PlotPoint, b: PlotPoint, end: PlotPoint, d: Vec)
    requires SqDist(a, end) == SqDist(b, end)
    requires (a.x - end.x) as real * d.x + (a.y - end.y) as real * d.y >
             (b.x - end.x) as real * d.x + (b.y - end.y) as real * d.y
    ensures Cost(a, end, d) < Cost(b, end, d)
  {
    var pa := (a.x - end.x) as real * d.x + (a.y - end.y) as real * d.y;
    var pb := (b.x - end.x) as real * d.x + (b.y - end.y) as real * d.y;
    assert Cost(a, end, d) == SqDist(a, end) as real - 0.99 * pa;
    assert Cost(b, end, d) == SqDist(b, end) as real - 0.99 * pb;
  }
}
