/** The integer line drawer: an error-term walk from one end point to the
    other that plots every point it visits through the clipped pixel write. */
module Lines {
  import opened Bytes
  import opened Framebuffer

  datatype Point = Point(x: int, y: int)

  function Abs(n: int): nat
  {
    if n < 0 then -n else n
  }

  function Max(a: int, b: int): int
  {
    if a < b then b else a
  }

  /** Whether `p` is a position a 16-bit coordinate pair can hold. */
  predicate OnGrid(p: Point)
  {
    0 <= p.x < 0x1_0000 && 0 <= p.y < 0x1_0000
  }

  /** Plots `pts` in order, each through the clipped pixel write. */
  function Plot(v: Vram, pts: seq<Point>, color: Color): (u: Vram)
    requires forall k :: 0 <= k < |pts| ==> OnGrid(pts[k])
    ensures forall r, c :: 0 <= r < Height && 0 <= c < Width ==>
              u[r][c] == if Point(c, r) in pts then color else v[r][c]
    decreases |pts|
  {
    if |pts| == 0 then v
    else
      var last := pts[|pts| - 1];
      assert OnGrid(last);
      var u := Pixel(Plot(v, pts[..|pts| - 1], color), last.x, last.y, color);
      assert forall p :: p in pts <==> p in pts[..|pts| - 1] || p == last;
      u
  }

  /** `-(n / 2)` with C's division, which truncates toward zero. */
  function HalfTowardZero(n: int): int
  {
    if n < 0 then -((-n) / 2) else n / 2
  }

  /** Cross product of the walked offset against the ideal direction: zero on
      the ideal line, and its size over the longer side is the distance from
      that line along the shorter axis. */
  function Deviation(x0: int, y0: int, x1: int, y1: int, p: Point): int
  {
    Abs(p.y - y0) * Abs(x1 - x0) - Abs(p.x - x0) * Abs(y1 - y0)
  }

  /** `p` lies in the box spanned by the two end points. */
  predicate InBox(x0: int, y0: int, x1: int, y1: int, p: Point)
  {
    (x0 <= p.x <= x1 || x1 <= p.x <= x0) && (y0 <= p.y <= y1 || y1 <= p.y <= y0)
  }

  /** A multiple `k >= 1` of `d > 0` is at least `d`. */
  lemma AtLeastOnce(k: int, d: int)
    requires k >= 1 && d > 0
    ensures k * d >= d
  {
  }

  lemma NonNegativeProduct(a: int, b: int)
    requires a >= 0 && b >= 0
    ensures a * b >= 0
  {
  }

  /** If `a d` and `b d` differ by less than `d > 0`, then `a == b`. */
  lemma CancelFactor(a: int, b: int, d: int)
    requires d > 0 && -d < a * d - b * d < d
    ensures a == b
  {
    assert a * d - b * d == (a - b) * d;
    if a < b {
      AtLeastOnce(b - a, d);
    } else if a > b {
      AtLeastOnce(a - b, d);
    }
  }

  /** The walk on the minor axis never runs past its end: from
      `j dx - i dy < dx` with `i <= dx` follows `j <= dy`. */
  lemma MinorBounded(i: int, j: int, dx: int, dy: int)
    requires dx > 0 && dy >= 0 && 0 <= i <= dx && j * dx - i * dy < dx
    ensures j <= dy
  {
    NonNegativeProduct(dx - i, dy);
    assert (dx - i) * dy == dx * dy - i * dy;
    if j > dy {
      NonNegativeProduct(j - dy - 1, dx);
    }
  }

  /** `n` copies of `d` added up.  The walk keeps its step counts scaled by
      the sides this way, so each step adds one copy and stays linear. */
  function Scaled(n: nat, d: int): int
  {
    if n == 0 then 0 else Scaled(n - 1, d) + d
  }

  lemma {:induction false} ScaledIsProduct(n: nat, d: int)
    ensures Scaled(n, d) == n * d
  {
    if n > 0 {
      ScaledIsProduct(n - 1, d);
      assert (n - 1) * d + d == n * d;
    }
  }

  /** The bookkeeping of the walk between two plots: `i` steps taken along x
      and `j` along y, with error term `err` started at `err0`.  On an x-major
      line (dx > dy) the error stays in [0, dx), otherwise in (-dy, 0]. */
  predicate Walking(dx: int, dy: int, err0: int, err: int, i: int, j: int)
  {
    && 0 <= dx && 0 <= dy
    && 0 <= i <= dx && 0 <= j <= dy
    && err == err0 - Scaled(i, dy) + Scaled(j, dx)
    && (dx > dy ==> 0 <= err0 < dx && 0 <= err < dx)
    && (dx <= dy ==> err0 <= 0 && err <= 0 && (dy > 0 ==> -dy < err0 && -dy < err))
  }

  /** The starting error term sets the walk up. */
  lemma WalkStarts(dx: int, dy: int)
    requires dx >= 0 && dy >= 0
    ensures Walking(dx, dy, HalfTowardZero(if dx > dy then dx else -dy),
                    HalfTowardZero(if dx > dy then dx else -dy), 0, 0)
  {
  }

  /** Reaching the end of the longer axis is reaching the end point. */
  lemma WalkEnds(dx: int, dy: int, err0: int, err: int, i: int, j: int)
    requires Walking(dx, dy, err0, err, i, j)
    ensures (if dx > dy then i == dx else j == dy) <==> i == dx && j == dy
  {
    ScaledIsProduct(i, dy);
    ScaledIsProduct(j, dx);
    if dx > dy && i == dx {
      assert i * dy == dy * dx;
      CancelFactor(j, dy, dx);
    } else if dx <= dy && j == dy && dy > 0 {
      assert j * dx == dx * dy;
      CancelFactor(dx, i, dy);
    }
  }

  /** The error term of the walk measures how far it is from the ideal line. */
  lemma WalkNear(dx: int, dy: int, err0: int, err: int, i: int, j: int)
    requires Walking(dx, dy, err0, err, i, j)
    ensures Abs(j * dx - i * dy) < Max(dx, dy) || (dx == 0 && dy == 0)
  {
    ScaledIsProduct(i, dy);
    ScaledIsProduct(j, dx);
  }

  /** One step away from the end point: the longer axis always advances,
      the shorter one at most once, and the walk stays set up. */
  lemma WalkStep(dx: int, dy: int, err0: int, err: int, i: int, j: int)
    requires Walking(dx, dy, err0, err, i, j) && !(i == dx && j == dy)
    ensures var stepX := err > -dx;
      var stepY := err < dy;
      && (if dx > dy then stepX else stepY)
      && Walking(dx, dy, err0,
                 err - (if stepX then dy else 0) + (if stepY then dx else 0),
                 if stepX then i + 1 else i,
                 if stepY then j + 1 else j)
  {
    WalkEnds(dx, dy, err0, err, i, j);
    var stepX := err > -dx;
    var stepY := err < dy;
    var err' := err - (if stepX then dy else 0) + (if stepY then dx else 0);
    var i' := if stepX then i + 1 else i;
    var j' := if stepY then j + 1 else j;
    assert err' == err0 - Scaled(i', dy) + Scaled(j', dx);
    ScaledIsProduct(i', dy);
    ScaledIsProduct(j', dx);
    if dx > dy {
      assert i' == i + 1 <= dx;
      MinorBounded(i', j', dx, dy);
    } else {
      assert j' == j + 1 <= dy;
      MinorBounded(j', i', dy, dx);
    }
  }

  /** What the walk promises of the `k`-th point it plots. */
  predicate OnTrack(x0: uint16, y0: uint16, x1: uint16, y1: uint16, k: int, p: Point)
  {
    && OnGrid(p) && InBox(x0, y0, x1, y1, p)
    && (if Abs(x1 - x0) > Abs(y1 - y0) then Abs(p.x - x0) == k else Abs(p.y - y0) == k)
    && (Abs(Deviation(x0, y0, x1, y1, p)) < Max(Abs(x1 - x0), Abs(y1 - y0)) || (x0 == x1 && y0 == y1))
  }

  /** Consecutive points are at most one pixel apart on each axis. */
  predicate Adjacent(p: Point, q: Point)
  {
    Abs(q.x - p.x) <= 1 && Abs(q.y - p.y) <= 1
  }

  /** The coordinate `n` steps from `a` towards `b`. */
  function Toward(a: int, b: int, n: int): int
  {
    if a < b then a + n else a - n
  }

  /** Where the walk stands after `i` steps along x and `j` along y, and
      what it promises of that point. */
  lemma WalkOnTrack(x0: uint16, y0: uint16, x1: uint16, y1: uint16, err0: int, err: int, i: int, j: int)
    requires Walking(Abs(x1 - x0), Abs(y1 - y0), err0, err, i, j)
    ensures OnTrack(x0, y0, x1, y1, if Abs(x1 - x0) > Abs(y1 - y0) then i else j,
                    Point(Toward(x0, x1, i), Toward(y0, y1, j)))
  {
    var dx, dy := Abs(x1 - x0), Abs(y1 - y0);
    WalkNear(dx, dy, err0, err, i, j);
    assert Deviation(x0, y0, x1, y1, Point(Toward(x0, x1, i), Toward(y0, y1, j))) == j * dx - i * dy;
  }

  /** One move of the pen: the error term before the move decides whether
      x moves (and the error drops by dy), y moves (and it grows by dx), or
      both. */
  function Advance(x: int, y: int, err: int, dx: int, dy: int, sx: int, sy: int): (int, int, int)
  {
    var e2 := err;
    var (x', err') := if e2 > -dx then (x + sx, err - dy) else (x, err);
    var (y', err'') := if e2 < dy then (y + sy, err' + dx) else (y, err');
    (x', y', err'')
  }

  /** A move away from the end point keeps the walk set up, advances along
      the longer axis and goes to a neighbouring pixel. */
  lemma AdvanceOnTrack(x0: uint16, y0: uint16, x1: uint16, y1: uint16, err0: int, err: int, i: int, j: int)
    requires Walking(Abs(x1 - x0), Abs(y1 - y0), err0, err, i, j)
    requires Toward(x0, x1, i) != x1 || Toward(y0, y1, j) != y1
    ensures var dx, dy := Abs(x1 - x0), Abs(y1 - y0);
      var x, y := Toward(x0, x1, i), Toward(y0, y1, j);
      var next := Advance(x, y, err, dx, dy, if x0 < x1 then 1 else -1, if y0 < y1 then 1 else -1);
      var i' := if err > -(dx as int) then i + 1 else i;
      var j' := if err < dy then j + 1 else j;
      && Walking(dx, dy, err0, next.2, i', j')
      && next.0 == Toward(x0, x1, i') && next.1 == Toward(y0, y1, j')
      && (if dx > dy then i' == i + 1 else j' == j + 1)
      && Adjacent(Point(x, y), Point(next.0, next.1))
  {
    var dx, dy := Abs(x1 - x0), Abs(y1 - y0);
    WalkStep(dx, dy, err0, err, i, j);
  }

  /** The points plotted so far keep the walk's promises. */
  predicate Tracked(x0: uint16, y0: uint16, x1: uint16, y1: uint16, pts: seq<Point>)
  {
    && (forall k :: 0 <= k < |pts| ==> OnTrack(x0, y0, x1, y1, k, pts[k]))
    && (forall k :: 0 < k < |pts| ==> Adjacent(pts[k - 1], pts[k]))
  }

  lemma TrackedExtends(x0: uint16, y0: uint16, x1: uint16, y1: uint16, pts: seq<Point>, p: Point)
    requires Tracked(x0, y0, x1, y1, pts) && OnTrack(x0, y0, x1, y1, |pts|, p)
    requires pts != [] ==> Adjacent(pts[|pts| - 1], p)
    ensures Tracked(x0, y0, x1, y1, pts + [p])
  {
    var all := pts + [p];
    forall k | 0 <= k < |all|
      ensures OnTrack(x0, y0, x1, y1, k, all[k])
    {
      if k < |pts| {
        assert all[k] == pts[k];
      }
    }
  }

  /** The state of the walk before it plots its next point: the counters
      are set up, the points so far keep their promises, and the pen is a
      neighbour of the last of them. */
  predicate Walked(x0: uint16, y0: uint16, x1: uint16, y1: uint16, err0: int, err: int, i: int, j: int, pts: seq<Point>)
  {
    var dx, dy := Abs(x1 - x0), Abs(y1 - y0);
    && Walking(dx, dy, err0, err, i, j)
    && |pts| == (if dx > dy then i else j)
    && Tracked(x0, y0, x1, y1, pts)
    && (pts == [] ==> i == 0 && j == 0)
    && (pts != [] ==> pts[0] == Point(x0, y0) && Adjacent(pts[|pts| - 1], Point(Toward(x0, x1, i), Toward(y0, y1, j))))
  }

  /** Plotting the pen's point keeps the promises; at the end point the walk
      has plotted one point per step of the longer side, plus one. */
  lemma WalkPlots(x0: uint16, y0: uint16, x1: uint16, y1: uint16, err0: int, err: int, i: int, j: int, pts: seq<Point>)
    requires Walked(x0, y0, x1, y1, err0, err, i, j, pts)
    ensures var p := Point(Toward(x0, x1, i), Toward(y0, y1, j));
      && Tracked(x0, y0, x1, y1, pts + [p])
      && (pts + [p])[0] == Point(x0, y0)
      && (p == Point(x1, y1) ==> |pts + [p]| == Max(Abs(x1 - x0), Abs(y1 - y0)) + 1)
  {
    var dx, dy := Abs(x1 - x0), Abs(y1 - y0);
    WalkOnTrack(x0, y0, x1, y1, err0, err, i, j);
    TrackedExtends(x0, y0, x1, y1, pts, Point(Toward(x0, x1, i), Toward(y0, y1, j)));
    WalkEnds(dx, dy, err0, err, i, j);
  }

  /** Moving the pen away from a point that is not the end point keeps the
      walk going and brings it one step closer. */
  lemma WalkMoves(x0: uint16, y0: uint16, x1: uint16, y1: uint16, err0: int, err: int, i: int, j: int, pts: seq<Point>)
    requires Walked(x0, y0, x1, y1, err0, err, i, j, pts)
    requires Point(Toward(x0, x1, i), Toward(y0, y1, j)) != Point(x1, y1)
    ensures var dx, dy := Abs(x1 - x0), Abs(y1 - y0);
      var x, y := Toward(x0, x1, i), Toward(y0, y1, j);
      var next := Advance(x, y, err, dx, dy, if x0 < x1 then 1 else -1, if y0 < y1 then 1 else -1);
      var i' := if err > -(dx as int) then i + 1 else i;
      var j' := if err < dy then j + 1 else j;
      && Walked(x0, y0, x1, y1, err0, next.2, i', j', pts + [Point(x, y)])
      && next.0 == Toward(x0, x1, i') && next.1 == Toward(y0, y1, j')
      && i' + j' > i + j
  {
    var dx, dy := Abs(x1 - x0), Abs(y1 - y0);
    WalkPlots(x0, y0, x1, y1, err0, err, i, j, pts);
    AdvanceOnTrack(x0, y0, x1, y1, err0, err, i, j);
  }

  /** The walk from (x0, y0) to (x1, y1), returning the points it plots in
      order.  It starts at (x0, y0), stops right after reaching (x1, y1),
      moves at most one pixel per axis per step and exactly one along the
      longer axis, stays in the box of the end points and never strays a
      full pixel from the ideal line along the shorter axis. */
  method Walk(x0: uint16, y0: uint16, x1: uint16, y1: uint16) returns (pts: seq<Point>)
    ensures |pts| == Max(Abs(x1 - x0), Abs(y1 - y0)) + 1
    ensures pts[0] == Point(x0, y0) && pts[|pts| - 1] == Point(x1, y1)
    ensures Tracked(x0, y0, x1, y1, pts)
  {
    var dx: int := Abs(x1 - x0);
    var sx := if x0 < x1 then 1 else -1;
    var dy: int := Abs(y1 - y0);
    var sy := if y0 < y1 then 1 else -1;
    var err := HalfTowardZero(if dx > dy then dx else -dy);
    ghost var err0 := err;
    var x: int, y: int := x0, y0;
    ghost var i, j := 0, 0;
    pts := [];
    WalkStarts(dx, dy);
    while true
      invariant Walked(x0, y0, x1, y1, err0, err, i, j, pts)
      invariant x == Toward(x0, x1, i) && y == Toward(y0, y1, j)
      decreases dx - i + dy - j
    {
      if x == x1 && y == y1 {
        WalkPlots(x0, y0, x1, y1, err0, err, i, j, pts);
        pts := pts + [Point(x, y)];
        break;
      }
      WalkMoves(x0, y0, x1, y1, err0, err, i, j, pts);
      pts := pts + [Point(x, y)];
      i, j := if err > -dx then i + 1 else i, if err < dy then j + 1 else j;
      var next := Advance(x, y, err, dx, dy, sx, sy);
      x, y, err := next.0, next.1, next.2;
    }
  }

  /** Draws the line from (x0, y0) to (x1, y1): every point of the walk, in
      order, through the clipped pixel write.  The walk never reads the
      buffer, so plotting each point as it is reached and plotting the
      finished walk write the same pixels in the same order.  Pixels of the
      walk that are on screen take `color`, the rest of the buffer stays. */
  method Line(v: Vram, x0: uint16, y0: uint16, x1: uint16, y1: uint16, color: Color)
    returns (u: Vram, pts: seq<Point>)
    ensures |pts| == Max(Abs(x1 - x0), Abs(y1 - y0)) + 1
    ensures pts[0] == Point(x0, y0) && pts[|pts| - 1] == Point(x1, y1)
    ensures Tracked(x0, y0, x1, y1, pts)
    ensures forall k :: 0 <= k < |pts| ==> OnGrid(pts[k])
    ensures u == Plot(v, pts, color)
    ensures forall r, c :: 0 <= r < Height && 0 <= c < Width ==>
              u[r][c] == if Point(c, r) in pts then color else v[r][c]
  {
    pts := Walk(x0, y0, x1, y1);
    assert forall k :: 0 <= k < |pts| ==> OnTrack(x0, y0, x1, y1, k, pts[k]);
    u := Plot(v, pts, color);
  }
}
