/** Line drawing on the linear framebuffer (vbe.cpp). */
module Line {
  import opened Types

  type Color = bv32

  datatype Point = Point(x: int, y: int)
  datatype Segment = Segment(from: Point, to: Point)
  {
    function Dx(): nat { if to.x >= from.x then to.x - from.x else from.x - to.x }
    function Dy(): nat { if to.y >= from.y then to.y - from.y else from.y - to.y }
    function Sx(): int { if from.x < to.x then 1 else -1 }
    function Sy(): int { if from.y < to.y then 1 else -1 }
    predicate Wide() { Dx() >= Dy() }
    function Major(): nat { if Wide() then Dx() else Dy() }
    function Minor(): nat { if Wide() then Dy() else Dx() }

    function Reversed(): Segment { Segment(to, from) }
  }

  /** The largest extent for which twice the error term of vbe_draw_line fits in an int32_t. */
  const MAX_EXTENT: nat := 0x2AAA_AAAA

  // ----- what a line is

  /** How far from the ideal line, in units of 1 / a, `k` steps along the longer axis (length `a`) and `j` steps
      along the shorter one (length `b`) lead. */
  function Drift(k: int, j: int, a: int, b: int): int
  {
    j * a - k * b
  }

  predicate Band(d: int, a: nat)
  {
    0 - a <= 2 * d && (a > 0 ==> 2 * d < a)
  }

  /** No more than half a pixel off the ideal line; a tie goes to the smaller `j`. */
  predicate Nearest(k: int, j: int, a: nat, b: nat)
  {
    Band(Drift(k, j, a, b), a)
  }

  lemma DriftSteps(k: int, j: int, a: int, b: int)
    ensures Drift(k + 1, j, a, b) == Drift(k, j, a, b) - b
    ensures Drift(k, j + 1, a, b) == Drift(k, j, a, b) + a
    ensures Drift(k + 1, j + 1, a, b) == Drift(k, j, a, b) + a - b
    ensures Drift(j, k, b, a) == 0 - Drift(k, j, a, b)
  {
    assert (j + 1) * a == j * a + a && (k + 1) * b == k * b + b;
  }

  /** The pixels of a line, without saying how they are found. */
  predicate OnLine(l: Segment, p: Point)
  {
    var i, j := l.Sx() * (p.x - l.from.x), l.Sy() * (p.y - l.from.y);
    && 0 <= i <= l.Dx() && 0 <= j <= l.Dy()
    && if l.Wide() then Nearest(i, j, l.Dx(), l.Dy()) else Nearest(j, i, l.Dy(), l.Dx())
  }

  /** The one step count that Nearest accepts. */
  function Near(k: nat, a: nat, b: nat): (j: nat)
    requires k <= a && b <= a
    ensures Nearest(k, j, a, b)
    ensures j <= b
    ensures forall j' :: Nearest(k, j', a, b) && 0 <= j' <= b ==> j' == j
  {
    if a == 0 then 0
    else
      NearExists(k, a, b);
      (2 * (k * b) + a - 1) / (2 * a)
  }

  /** Rounded division, ties downwards. */
  lemma RoundsToNearest(x: nat, a: nat)
    requires a > 0
    ensures Band((2 * x + a - 1) / (2 * a) * a - x, a)
  {
    var n, d := 2 * x + a - 1, 2 * a;
    var j, r := n / d, n % d;
    assert n == d * j + r && 0 <= r < d;
    assert d * j == 2 * (j * a);
  }

  lemma NearExists(k: nat, a: nat, b: nat)
    requires k <= a && b <= a && a > 0
    ensures var j := (2 * (k * b) + a - 1) / (2 * a);
            0 <= j <= b && Nearest(k, j, a, b) && forall j' :: Nearest(k, j', a, b) ==> j' == j
  {
    var x := k * b;
    assert x >= 0;
    var j := (2 * x + a - 1) / (2 * a);
    RoundsToNearest(x, a);
    NearestRange(k, j, a, b);
    forall j' | Nearest(k, j', a, b)
      ensures j' == j
    {
      NearestIsUnique(k, j, j', a, b);
    }
  }

  lemma NearestIsUnique(k: nat, j: int, j': int, a: nat, b: nat)
    requires a > 0 && Nearest(k, j, a, b) && Nearest(k, j', a, b)
    ensures j == j'
  {
    MulStep(j, j', a);
    MulStep(j', j, a);
  }

  lemma NearestRange(k: nat, j: int, a: nat, b: nat)
    requires k <= a && b <= a && a > 0 && Nearest(k, j, a, b)
    ensures 0 <= j <= b
  {
    assert k * b <= a * b by {
      MulOrder(k, a, b);
    }
    MulStep(b, j, a);
    MulStep(j, 0, a);
    assert k * b >= 0;
  }

  lemma MulStep(x: int, y: int, z: nat)
    ensures x < y ==> x * z + z <= y * z
  {
    if x < y {
      MulOrder(x + 1, y, z);
      assert (x + 1) * z == x * z + z;
    }
  }

  /** One more step along the longer axis: a step is taken along the shorter one when the point would otherwise
      leave the band. */
  lemma NextNear(k: nat, j: nat, a: nat, b: nat)
    requires k < a && b <= a && Nearest(k, j, a, b)
    ensures var d := Drift(k, j, a, b);
            && 0 - a <= 2 * d < a && (a == b ==> d == 0)
            && (2 * (d - b) < 0 - a ==> Nearest(k + 1, j + 1, a, b) && j + 1 <= b)
            && (2 * (d - b) >= 0 - a ==> Nearest(k + 1, j, a, b) && j <= b)
  {
    hide Drift;
    DriftSteps(k, j, a, b);
    if 2 * (Drift(k, j, a, b) - b) < 0 - a {
      NearestRange(k + 1, j + 1, a, b);
    } else {
      NearestRange(k + 1, j, a, b);
    }
    Diagonal(k, a);
    if a == b {
      NearestIsUnique(k, j, k, a, b);
    }
  }

  lemma Diagonal(k: nat, a: nat)
    ensures Drift(k, k, a, a) == 0
  {
  }

  /** The point reached after `k` steps along the longer axis. */
  function PointAt(l: Segment, k: nat): Point
    requires k <= l.Major()
  {
    var j := Near(k, l.Major(), l.Minor());
    if l.Wide() then Point(l.from.x + l.Sx() * k, l.from.y + l.Sy() * j)
    else Point(l.from.x + l.Sx() * j, l.from.y + l.Sy() * k)
  }

  function Path(l: Segment): seq<Point>
  {
    seq(l.Major() + 1, k requires 0 <= k <= l.Major() => PointAt(l, k))
  }

  lemma WholePath(l: Segment, path: seq<Point>)
    requires |path| == l.Major() + 1 && forall m :: 0 <= m < |path| ==> path[m] == PointAt(l, m)
    ensures path == Path(l)
  {
  }

  /** The points visited are the pixels of the line, one for each coordinate of the longer axis. */
  lemma PathIsLine(l: Segment, p: Point)
    ensures p in Path(l) <==> OnLine(l, p)
  {
    hide PointAt, OnLine;
    if OnLine(l, p) {
      var k := LineIsVisited(l, p);
      assert Path(l)[k] == p;
    }
    if p in Path(l) {
      var n: nat :| n <= l.Major() && Path(l)[n] == p;
      VisitedIsLine(l, n);
    }
  }

  lemma LineIsVisited(l: Segment, p: Point) returns (k: nat)
    requires OnLine(l, p)
    ensures k <= l.Major() && PointAt(l, k) == p
  {
    hide Near, Drift, Nearest;
    k := if l.Wide() then l.Sx() * (p.x - l.from.x) else l.Sy() * (p.y - l.from.y);
    Forth(l.Sx(), p.x - l.from.x);
    Forth(l.Sy(), p.y - l.from.y);
  }

  lemma VisitedIsLine(l: Segment, n: nat)
    requires n <= l.Major()
    ensures OnLine(l, PointAt(l, n))
  {
    hide Near, Drift, Nearest;
    var j := Near(n, l.Major(), l.Minor());
    Forth(l.Sx(), if l.Wide() then n else j);
    Forth(l.Sy(), if l.Wide() then j else n);
  }

  lemma Forth(s: int, x: int)
    requires s == 1 || s == -1
    ensures s * (s * x) == x
  {
  }

  /** A line runs from its first endpoint to its second in single steps, straight or diagonal. */
  lemma PathIsConnected(l: Segment)
    ensures Path(l)[0] == l.from && Path(l)[l.Major()] == l.to
    ensures forall k: nat :: k < l.Major() ==>
              var p, q := Path(l)[k], Path(l)[k + 1];
              && -1 <= q.x - p.x <= 1 && -1 <= q.y - p.y <= 1
              && (if l.Wide() then q.x == p.x + l.Sx() else q.y == p.y + l.Sy())
  {
    hide Near, Drift, Nearest, PointAt;
    PathEnds(l);
    forall k: nat | k < l.Major()
      ensures var p, q := PointAt(l, k), PointAt(l, k + 1);
              && -1 <= q.x - p.x <= 1 && -1 <= q.y - p.y <= 1
              && (if l.Wide() then q.x == p.x + l.Sx() else q.y == p.y + l.Sy())
    {
      PathStep(l, k);
    }
  }

  lemma PathEnds(l: Segment)
    ensures PointAt(l, 0) == l.from && PointAt(l, l.Major()) == l.to
  {
    hide Near, Drift, Nearest;
    EndsAreNear(l.Major(), l.Minor());
  }

  lemma PathStep(l: Segment, k: nat)
    requires k < l.Major()
    ensures var p, q := PointAt(l, k), PointAt(l, k + 1);
            && -1 <= q.x - p.x <= 1 && -1 <= q.y - p.y <= 1
            && (if l.Wide() then q.x == p.x + l.Sx() else q.y == p.y + l.Sy())
  {
    hide Near, Drift, Nearest;
    NearSteps(k, l.Major(), l.Minor());
  }

  lemma EndsAreNear(a: nat, b: nat)
    requires b <= a
    ensures Near(0, a, b) == 0 && Near(a, a, b) == b
  {
    hide Near;
    assert Nearest(0, 0, a, b);
    assert Nearest(a, b, a, b);
  }

  lemma NearSteps(k: nat, a: nat, b: nat)
    requires k < a && b <= a
    ensures Near(k, a, b) <= Near(k + 1, a, b) <= Near(k, a, b) + 1
  {
    var j := Near(k, a, b);
    NextNear(k, j, a, b);
  }

  /** A pixel of a line is a pixel of the same line drawn from the other end, unless it is exactly half a pixel
      away from the ideal line. */
  lemma DirectionMattersAtTies(l: Segment, p: Point)
    requires OnLine(l, p)
    ensures OnLine(l.Reversed(), p) <==>
            var i, j := l.Sx() * (p.x - l.from.x), l.Sy() * (p.y - l.from.y);
            l.Major() == 0 || 2 * (if l.Wide() then Drift(i, j, l.Dx(), l.Dy()) else Drift(j, i, l.Dy(), l.Dx())) != 0 - l.Major()
  {
    hide Drift;
    var i, j := l.Sx() * (p.x - l.from.x), l.Sy() * (p.y - l.from.y);
    var r := l.Reversed();
    var i', j' := r.Sx() * (p.x - r.from.x), r.Sy() * (p.y - r.from.y);
    assert l.Dx() > 0 ==> i' == l.Dx() - i;
    assert l.Dx() == 0 ==> i' == i == 0;
    assert l.Dy() > 0 ==> j' == l.Dy() - j;
    assert l.Dy() == 0 ==> j' == j == 0;
    assert i' == l.Dx() - i && j' == l.Dy() - j;
    Expand(l.Dx(), l.Dy(), i, j);
  }

  /** From (0, 0) to (2, 1) the pixel in the middle is (1, 0); from (2, 1) to (0, 0) it is not. */
  lemma DirectionExample()
    ensures var l := Segment(Point(0, 0), Point(2, 1));
            OnLine(l, Point(1, 0)) && !OnLine(l.Reversed(), Point(1, 0))
  {
  }

  function Abs(x: int): int
  {
    if x < 0 then 0 - x else x
  }

  predicate Between(a: int, x: int, b: int)
  {
    a <= x <= b || b <= x <= a
  }

  /** A pixel's distance from the ideal line by the cross product: pixels of the line lie between the endpoints and no more
      than half a pixel off along the shorter axis, and all that lie less than half a pixel off are pixels of the line. */
  lemma OnLineByDistance(l: Segment, p: Point)
    ensures var ax, ay := l.to.x - l.from.x, l.to.y - l.from.y;
            var cross := (p.y - l.from.y) * ax - (p.x - l.from.x) * ay;
            var longer := if Abs(ax) >= Abs(ay) then Abs(ax) else Abs(ay);
            var inside := Between(l.from.x, p.x, l.to.x) && Between(l.from.y, p.y, l.to.y);
            && (OnLine(l, p) ==> inside && 2 * Abs(cross) <= longer)
            && (inside && 2 * Abs(cross) < longer ==> OnLine(l, p))
  {
    hide Drift, Between, l.Sx, l.Sy, l.Dx, l.Dy;
    DriftIsCross(l, p);
    SpansAreBetween(l, p);
  }

  lemma SpansAreBetween(l: Segment, p: Point)
    ensures l.Dx() == Abs(l.to.x - l.from.x) && l.Dy() == Abs(l.to.y - l.from.y)
    ensures Between(l.from.x, p.x, l.to.x) <==> 0 <= l.Sx() * (p.x - l.from.x) <= l.Dx()
    ensures Between(l.from.y, p.y, l.to.y) <==> 0 <= l.Sy() * (p.y - l.from.y) <= l.Dy()
  {
    SpanIsBetween(l.from.x, p.x, l.to.x, l.Sx());
    SpanIsBetween(l.from.y, p.y, l.to.y, l.Sy());
  }

  lemma DriftIsCross(l: Segment, p: Point)
    ensures var i, j := l.Sx() * (p.x - l.from.x), l.Sy() * (p.y - l.from.y);
            var cross := (p.y - l.from.y) * (l.to.x - l.from.x) - (p.x - l.from.x) * (l.to.y - l.from.y);
            Abs(Drift(i, j, l.Dx(), l.Dy())) == Abs(Drift(j, i, l.Dy(), l.Dx())) == Abs(cross)
  {
    hide Drift;
    var i, j := l.Sx() * (p.x - l.from.x), l.Sy() * (p.y - l.from.y);
    CrossIsDrift(p.x - l.from.x, p.y - l.from.y, l.to.x - l.from.x, l.to.y - l.from.y, l.Sx(), l.Sy());
    DriftSteps(i, j, l.Dx(), l.Dy());
    assert l.Sx() * (l.to.x - l.from.x) == l.Dx() && l.Sy() * (l.to.y - l.from.y) == l.Dy();
  }

  lemma SpanIsBetween(a: int, x: int, b: int, s: int)
    requires s == if a < b then 1 else -1
    ensures Between(a, x, b) <==> 0 <= s * (x - a) <= Abs(b - a)
  {
  }

  lemma CrossIsDrift(x: int, y: int, ax: int, ay: int, sx: int, sy: int)
    requires (sx == 1 || sx == -1) && (sy == 1 || sy == -1)
    ensures Abs(y * ax - x * ay) == Abs(Drift(sx * x, sy * y, sx * ax, sy * ay))
  {
    assert (sy * y) * (sx * ax) == sx * sy * (y * ax) && (sx * x) * (sy * ay) == sx * sy * (x * ay);
  }

  lemma Expand(a: int, b: int, i: int, j: int)
    ensures Drift(a - i, b - j, a, b) == 0 - Drift(i, j, a, b)
    ensures Drift(b - j, a - i, b, a) == 0 - Drift(j, i, b, a)
  {
    assert (b - j) * a == b * a - j * a;
    assert (a - i) * b == a * b - i * b;
  }

  // ----- the framebuffer

  class Screen {
    var active: bool            // vbe_active
    const pixels: array<Color>  // fb_addr
    const width: nat            // fb_width
    const height: nat           // fb_height
    const stride: nat           // fb_pitch, in pixels

    ghost predicate Valid()
      reads this
    {
      width <= stride && height * stride <= pixels.Length
    }

    constructor (width: nat, height: nat, stride: nat, active: bool)
      requires width <= stride
      ensures Valid() && fresh(pixels) && this.width == width && this.height == height && this.stride == stride
      ensures this.active == active
    {
      this.width, this.height, this.stride, this.active := width, height, stride, active;
      pixels := new Color[height * stride](_ => 0);
    }

    predicate Shows(p: Point)
    {
      0 <= p.x < width && 0 <= p.y < height
    }

    /** Where a visible pixel is stored; different pixels are stored in different places. */
    function Index(p: Point): (n: nat)
      requires Valid() && Shows(p)
      reads this
      ensures n < pixels.Length
    {
      MulOrder(p.y + 1, height, stride);
      assert (p.y + 1) * stride == p.y * stride + stride;
      p.y * stride + p.x
    }

    /** In bytes: a row is a pitch of four bytes a pixel further on, a column four bytes. */
    lemma PixelAddress(p: Point)
      requires Valid() && Shows(p)
      ensures 4 * Index(p) == p.y * (4 * stride) + p.x * 4
    {
      assert p.y * (4 * stride) == 4 * (p.y * stride);
    }

    lemma IndexIsOneToOne(p: Point, q: Point)
      requires Valid() && Shows(p) && Shows(q) && Index(p) == Index(q)
      ensures p == q
    {
      MulStep(p.y, q.y, stride);
      MulStep(q.y, p.y, stride);
    }

    ghost predicate Holds(path: seq<Point>, n: nat)
      requires Valid()
      reads this
    {
      exists k :: 0 <= k < |path| && Shows(path[k]) && Index(path[k]) == n
    }

    /** vbe_putpixel. */
    method PutPixel(x: int, y: int, color: Color)
      requires Valid()
      modifies pixels
      ensures active && Shows(Point(x, y)) ==> pixels[..] == old(pixels[..])[Index(Point(x, y)) := color]
      ensures !(active && Shows(Point(x, y))) ==> pixels[..] == old(pixels[..])
    {
      if !active {
        return;
      }
      if x < 0 || x >= width || y < 0 || y >= height {
        return;
      }
      pixels[Index(Point(x, y))] := color;
    }

    /** The visible points of `path` have the colour and the rest is as in `before`. */
    ghost predicate Painted(path: seq<Point>, color: Color, before: seq<Color>)
      requires Valid()
      reads this, pixels
    {
      |before| == pixels.Length && forall n :: 0 <= n < pixels.Length ==> pixels[n] == if Holds(path, n) then color else before[n]
    }

    method Visit(x: int, y: int, color: Color, ghost path: seq<Point>, ghost before: seq<Color>) returns (ghost longer: seq<Point>)
      requires Valid() && Painted(path, color, before)
      modifies pixels
      ensures longer == path + [Point(x, y)] && (active ==> Painted(longer, color, before))
    {
      longer := path + [Point(x, y)];
      PutPixel(x, y, color);
      HoldsMore(path, Point(x, y));
    }

    /** vbe_draw_line: the visible pixels of the line get the colour and nothing else changes. `path` is the list
        of the points the loop visits. */
    method DrawLine(from: Point, to: Point, color: Color) returns (ghost path: seq<Point>)
      requires Valid() && Segment(from, to).Major() <= MAX_EXTENT
      modifies pixels
      ensures path == if active then Path(Segment(from, to)) else []
      ensures active ==> forall p: Point :: Shows(p) ==>
                pixels[Index(p)] == if OnLine(Segment(from, to), p) then color else old(pixels[Index(p)])
      ensures forall n :: 0 <= n < pixels.Length && !Holds(path, n) ==> pixels[n] == old(pixels[n])
    {
      hide Near, Drift, Nearest, Along, OnLine, PointAt, Path, Painted, Holds, Reached;
      PaintedNothing(color, pixels[..]);
      path := [];
      if !active {
        return;
      }
      ghost var l := Segment(from, to);
      var x1, y1, x2, y2 := from.x, from.y, to.x, to.y;
      var dx := if x2 - x1 >= 0 then x2 - x1 else x1 - x2;
      var dy := if y2 - y1 >= 0 then y2 - y1 else y1 - y2;
      var sx := if x1 < x2 then 1 else -1;
      var sy := if y1 < y2 then 1 else -1;
      var err := dx - dy;
      ghost var i, j, k := 0, 0, 0;
      FirstStep(l);
      ReachedMore(l, 0, 0);
      while true
        invariant k <= l.Major() && |path| == k && forall m :: 0 <= m < k ==> path[m] == PointAt(l, m)
        invariant Along(l, i, j, k)
        invariant Point(x1, y1) == Reached(l, i, j)
        invariant err == Drift(i + 1, j + 1, dx, dy)
        invariant Painted(path, color, old(pixels[..]))
        decreases l.Major() - k
      {
        AlongPoint(l, i, j, k);
        ReachedMore(l, i, j);
        path := Visit(x1, y1, color, path, old(pixels[..]));
        ReachedEnd(l, i, j, k);
        if x1 == x2 && y1 == y2 {
          break;
        }
        var e2 := 2 * err;
        NextStep(l, i, j, k, err);
        assert -0x8000_0000 <= e2 < 0x8000_0000;
        if e2 > -dy {
          err := err - dy;
          x1 := x1 + sx;
          i := i + 1;
        }
        if e2 < dx {
          err := err + dx;
          y1 := y1 + sy;
          j := j + 1;
        }
        k := k + 1;
      }
      WholePath(l, path);
      PaintedLine(l, color, old(pixels[..]));
    }

    lemma PaintedNothing(color: Color, before: seq<Color>)
      requires Valid() && pixels[..] == before
      ensures Painted([], color, before)
    {
    }

    lemma PaintedLine(l: Segment, color: Color, before: seq<Color>)
      requires Valid() && Painted(Path(l), color, before)
      ensures forall p: Point :: Shows(p) ==> pixels[Index(p)] == if OnLine(l, p) then color else before[Index(p)]
      ensures forall n :: 0 <= n < pixels.Length && !Holds(Path(l), n) ==> pixels[n] == before[n]
    {
      hide OnLine, Path, Holds;
      forall p: Point | Shows(p)
        ensures Holds(Path(l), Index(p)) <==> OnLine(l, p)
      {
        PathIsLine(l, p);
        HoldsPoint(Path(l), p);
      }
    }

    lemma HoldsPoint(path: seq<Point>, p: Point)
      requires Valid() && Shows(p)
      ensures Holds(path, Index(p)) <==> p in path
    {
      if Holds(path, Index(p)) {
        var k :| 0 <= k < |path| && Shows(path[k]) && Index(path[k]) == Index(p);
        IndexIsOneToOne(path[k], p);
      }
    }

    lemma HoldsMore(path: seq<Point>, p: Point)
      requires Valid()
      ensures forall n :: 0 <= n < pixels.Length ==>
                (Holds(path + [p], n) <==> Holds(path, n) || (Shows(p) && Index(p) == n))
    {
      forall n: nat | n < pixels.Length
        ensures Holds(path + [p], n) <==> Holds(path, n) || (Shows(p) && Index(p) == n)
      {
        if Holds(path, n) {
          var k :| 0 <= k < |path| && Shows(path[k]) && Index(path[k]) == n;
          assert (path + [p])[k] == path[k];
        }
        assert (path + [p])[|path|] == p;
      }
    }
  }

  /** The state of the loop after `i` steps in x and `j` in y, `k` of them along the longer axis. */
  ghost predicate Along(l: Segment, i: nat, j: nat, k: nat)
  {
    && k <= l.Major() && i <= l.Dx() && j <= l.Dy()
    && if l.Wide() then i == k && Nearest(i, j, l.Dx(), l.Dy()) else j == k && Nearest(j, i, l.Dy(), l.Dx())
  }

  /** The point after `i` steps in x and `j` in y. */
  function Reached(l: Segment, i: int, j: int): Point
  {
    Point(l.from.x + l.Sx() * i, l.from.y + l.Sy() * j)
  }

  lemma ReachedMore(l: Segment, i: int, j: int)
    ensures Reached(l, 0, 0) == l.from
    ensures var p := Reached(l, i, j);
            && Reached(l, i + 1, j) == Point(p.x + l.Sx(), p.y)
            && Reached(l, i, j + 1) == Point(p.x, p.y + l.Sy())
            && Reached(l, i + 1, j + 1) == Point(p.x + l.Sx(), p.y + l.Sy())
  {
  }

  lemma FirstStep(l: Segment)
    ensures Along(l, 0, 0, 0) && Drift(1, 1, l.Dx(), l.Dy()) == l.Dx() - l.Dy()
  {
  }

  lemma AlongPoint(l: Segment, i: nat, j: nat, k: nat)
    requires Along(l, i, j, k)
    ensures PointAt(l, k) == Reached(l, i, j)
  {
  }

  /** The loop is at the second endpoint exactly when it has gone the whole length of the longer axis. */
  lemma ReachedEnd(l: Segment, i: nat, j: nat, k: nat)
    requires Along(l, i, j, k)
    ensures Reached(l, i, j) == l.to <==> k == l.Major()
  {
    var a, b := l.Major(), l.Minor();
    if k == a {
      EndsAreNear(a, b);
      assert if l.Wide() then Near(k, a, b) == j else Near(k, a, b) == i;
    }
  }

  /** The error term decides as Nearest does, and twice its value fits. */
  lemma NextStep(l: Segment, i: nat, j: nat, k: nat, err: int)
    requires Along(l, i, j, k) && k < l.Major()
    requires err == Drift(i + 1, j + 1, l.Dx(), l.Dy())
    ensures -3 * l.Major() <= 2 * err <= 3 * l.Major()
    ensures var i' := if 2 * err > 0 - l.Dy() then i + 1 else i;
            var j' := if 2 * err < l.Dx() then j + 1 else j;
            Along(l, i', j', k + 1) && Drift(i' + 1, j' + 1, l.Dx(), l.Dy()) ==
              err - (if 2 * err > 0 - l.Dy() then l.Dy() else 0) + (if 2 * err < l.Dx() then l.Dx() else 0)
  {
    hide Drift, Nearest;
    var a, b := l.Dx(), l.Dy();
    DriftSteps(i, j, a, b);
    DriftSteps(i + 1, j, a, b);
    DriftSteps(i, j + 1, a, b);
    DriftSteps(i + 1, j + 1, a, b);
    if l.Wide() {
      NextNear(i, j, a, b);
    } else {
      NextNear(j, i, b, a);
    }
  }
}
