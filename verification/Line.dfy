/** fb_draw_line: Bresenham's line, with one error term for all octants, on a clipped
    framebuffer. */
module Line {

  datatype Point = Point(x: int, y: int)

  function Abs(v: int): nat { if v < 0 then -v else v }
  function Max(a: nat, b: nat): nat { if a < b then b else a }

  // +1 or -1, as the code picks it; a zero extent is walked downwards, in no steps
  function Sign(from: int, to: int): int { if from < to then 1 else -1 }

  // The ideal line rises m over n steps of its dominant axis. After k of them a rise of w is
  // within half a pixel of the ideal k * m / n.
  ghost predicate HalfPixel(k: int, n: int, m: int, w: int) {
    -n <= 2 * (n * w - k * m) <= n
  }

  // Point number k: k steps along the dominant axis, and along the other a whole number of
  // steps, between 0 and k, within half a pixel of the ideal line from a to b
  ghost predicate OnLine(p: Point, k: int, a: Point, b: Point) {
    var dx, dy := Abs(b.x - a.x), Abs(b.y - a.y);
    var u, v := (p.x - a.x) * Sign(a.x, b.x), (p.y - a.y) * Sign(a.y, b.y);
    if dx >= dy then u == k && 0 <= v <= k && HalfPixel(k, dx, dy, v)
    else v == k && 0 <= u <= k && HalfPixel(k, dy, dx, u)
  }

  // A whole line: one point per dominant step, from a to b
  ghost predicate IsLine(pts: seq<Point>, a: Point, b: Point) {
    && |pts| == Max(Abs(b.x - a.x), Abs(b.y - a.y)) + 1
    && pts[0] == a && pts[|pts| - 1] == b
    && forall k :: 0 <= k < |pts| ==> OnLine(pts[k], k, a, b)
  }

  // ----- one turn of the loop, in steps u and v taken along x and y -----

  // The code's error term after u and v steps
  function Err(dx: int, dy: int, u: int, v: int): int { dx * (v + 1) - dy * (u + 1) }

  ghost predicate Near(dx: int, dy: int, k: int, u: int, v: int) {
    if dx >= dy then u == k && 0 <= v <= k && HalfPixel(k, dx, dy, v)
    else v == k && 0 <= u <= k && HalfPixel(k, dy, dx, u)
  }

  // Doubled, the error term is the doubled deviation shifted by the extents, so it stays
  // within three times the longer one.
  lemma ErrIs(dx: int, dy: int, k: int, u: int, v: int)
    requires 0 <= dx && 0 <= dy && Near(dx, dy, k, u, v)
    ensures var n := if dx >= dy then dx else dy;
      && 2 * Err(dx, dy, u, v) == 2 * (dx * v - dy * u) + 2 * dx - 2 * dy
      && -3 * n <= 2 * Err(dx, dy, u, v) <= 3 * n
  {
    assert dx * (v + 1) == dx * v + dx && dy * (u + 1) == dy * u + dy;
  }

  // The turn with the products named: major steps always, minor steps to stay near
  lemma TurnLinear(n: int, m: int, p: int, q: int)
    requires 0 <= m <= n && -n <= 2 * (p - q) <= n
    ensures 2 * (p - q) + 2 * n - 2 * m >= -m && 2 * (q - p) + 2 * m - 2 * n <= m
    ensures var p' := if 2 * (p - q) + 2 * n - 2 * m <= n then p + n else p; -n <= 2 * (p' - (q + m)) <= n
    ensures var p' := if 2 * (q - p) + 2 * m - 2 * n >= -n then p + n else p; -n <= 2 * (p' - (q + m)) <= n
  {
  }

  lemma Turn(dx: int, dy: int, k: int, u: int, v: int)
    requires 0 <= dx && 0 <= dy && Near(dx, dy, k, u, v)
    ensures var e2 := 2 * Err(dx, dy, u, v);
      var (u', v') := (if e2 >= -dy then u + 1 else u, if e2 <= dx then v + 1 else v);
      && Near(dx, dy, k + 1, u', v')
      && Err(dx, dy, u', v') == Err(dx, dy, u, v) - (if e2 >= -dy then dy else 0) + (if e2 <= dx then dx else 0)
  {
    ErrIs(dx, dy, k, u, v);
    Distribute(dx, v);
    Distribute(dy, u);
    if dx >= dy { TurnLinear(dx, dy, dx * v, k * dy); Distribute(dy, k); }
    else { TurnLinear(dy, dx, dy * u, k * dx); Distribute(dx, k); }
  }

  lemma Distribute(n: int, k: int)
    ensures n * (k + 1) == n * k + n && n * (k + 2) == n * k + 2 * n && (k + 1) * n == k * n + n && n * k == k * n
  {
  }

  // At the last dominant step the other axis has arrived too.
  lemma Arrived(dx: int, dy: int, u: int, v: int)
    requires 0 <= dx && 0 <= dy && Near(dx, dy, if dx >= dy then dx else dy, u, v)
    ensures u == dx && v == dy
  {
    if dx >= dy { HalfOfNone(dx, v - dy); assert dx * v - dx * dy == dx * (v - dy); }
    else { HalfOfNone(dy, u - dx); assert dy * u - dy * dx == dy * (u - dx); }
  }

  // A multiple of n within half of n is none.
  lemma HalfOfNone(n: int, d: int)
    requires n >= 0
    ensures n > 0 && -n <= 2 * (n * d) <= n ==> d == 0
  {
    if d > 0 { assert n * d >= n; }
    if d < 0 { assert n * d <= -n; }
  }

  // One turn of the loop: the next point and error term
  function TurnOf(a: Point, b: Point, p: Point, err: int): (Point, int) {
    var dx: int, dy: int := Abs(b.x - a.x), 0 - Abs(b.y - a.y);
    var (h, w) := (2 * err >= dy, 2 * err <= dx);
    (Point(if h then p.x + Sign(a.x, b.x) else p.x, if w then p.y + Sign(a.y, b.y) else p.y),
     err + (if h then dy else 0) + (if w then dx else 0))
  }

  // The point and error term after k turns
  function Turns(a: Point, b: Point, k: nat): (Point, int) {
    if k == 0 then (a, Abs(b.x - a.x) - Abs(b.y - a.y))
    else TurnOf(a, b, Turns(a, b, k - 1).0, Turns(a, b, k - 1).1)
  }

  // The points of the first n turns
  function Trail(a: Point, b: Point, n: nat): seq<Point> {
    if n == 0 then [] else Trail(a, b, n - 1) + [Turns(a, b, n - 1).0]
  }

  lemma NextTurn(a: Point, b: Point, k: nat, p: Point, err: int)
    requires Turns(a, b, k) == (p, err)
    ensures Turns(a, b, k + 1) == TurnOf(a, b, p, err) && Trail(a, b, k + 1) == Trail(a, b, k) + [p]
  {
  }

  function Extent(a: Point, b: Point): nat { Max(Abs(b.x - a.x), Abs(b.y - a.y)) }

  // The point u steps along x and v along y from a towards b
  function Place(a: Point, b: Point, u: int, v: int): Point {
    Point(a.x + u * Sign(a.x, b.x), a.y + v * Sign(a.y, b.y))
  }

  // The point of turn k is on the line, the endpoint is met at the last turn and at no other,
  // and a further step moves one pixel.
  lemma Placed(a: Point, b: Point, k: int, u: int, v: int)
    requires Near(Abs(b.x - a.x), Abs(b.y - a.y), k, u, v)
    ensures OnLine(Place(a, b, u, v), k, a, b)
    ensures Place(a, b, u, v) == b <==> k == Extent(a, b)
    ensures k == 0 ==> Place(a, b, u, v) == a
    ensures Place(a, b, u + 1, v) == Point(Place(a, b, u, v).x + Sign(a.x, b.x), Place(a, b, u, v).y)
    ensures Place(a, b, u, v + 1) == Point(Place(a, b, u, v).x, Place(a, b, u, v).y + Sign(a.y, b.y))
    ensures Place(a, b, u + 1, v + 1) ==
      Point(Place(a, b, u, v).x + Sign(a.x, b.x), Place(a, b, u, v).y + Sign(a.y, b.y))
  {
    if k == Extent(a, b) { Arrived(Abs(b.x - a.x), Abs(b.y - a.y), u, v); }
  }

  // The loop's variables after k turns, u of them along x and v along y
  ghost predicate At(a: Point, b: Point, k: int, u: int, v: int, p: Point, err: int) {
    var dx, dy := Abs(b.x - a.x), Abs(b.y - a.y);
    Near(dx, dy, k, u, v) && p == Place(a, b, u, v) && err == Err(dx, dy, u, v)
  }

  lemma TurnAt(a: Point, b: Point, k: int, u: int, v: int, p: Point, err: int)
    requires At(a, b, k, u, v, p, err)
    ensures var dx, dy := Abs(b.x - a.x), 0 - Abs(b.y - a.y);
      At(a, b, k + 1, if 2 * err >= dy then u + 1 else u, if 2 * err <= dx then v + 1 else v,
         TurnOf(a, b, p, err).0, TurnOf(a, b, p, err).1)
  {
    Turn(Abs(b.x - a.x), Abs(b.y - a.y), k, u, v);
    Placed(a, b, k, u, v);
  }

  lemma {:induction false} TurnsNear(a: Point, b: Point, k: nat) returns (u: int, v: int)
    ensures At(a, b, k, u, v, Turns(a, b, k).0, Turns(a, b, k).1)
  {
    if k == 0 {
      u, v := 0, 0;
    } else {
      var (p, err) := Turns(a, b, k - 1);
      var u0, v0 := TurnsNear(a, b, k - 1);
      TurnAt(a, b, k - 1, u0, v0, p, err);
      u := if 2 * err >= 0 - Abs(b.y - a.y) then u0 + 1 else u0;
      v := if 2 * err <= Abs(b.x - a.x) then v0 + 1 else v0;
    }
  }

  // The loop leaves at turn Extent(a, b) and at no other.
  lemma LastTurn(a: Point, b: Point, k: nat)
    ensures Turns(a, b, k).0 == b <==> k == Extent(a, b)
  {
    var u, v := TurnsNear(a, b, k);
    Placed(a, b, k, u, v);
  }

  // Up to the last dominant step neither axis goes past the endpoint.
  lemma StepsInside(dx: int, dy: int, k: int, u: int, v: int)
    requires 0 <= dx && 0 <= dy && Near(dx, dy, k, u, v) && 0 <= k <= Max(dx, dy)
    ensures 0 <= u <= dx && 0 <= v <= dy
  {
    if dx >= dy { MinorInside(dx, dy, k, v); } else { MinorInside(dy, dx, k, u); }
  }

  lemma MinorInside(n: int, m: int, k: int, w: int)
    requires 0 <= m <= n && 0 <= k <= n && 0 <= w <= k && HalfPixel(k, n, m, w)
    ensures w <= m
  {
    Monotone(m, k, n);
    Further(n, m, w);
  }

  lemma Monotone(m: int, k: int, n: int)
    requires 0 <= m && k <= n
    ensures k * m <= n * m
  {
  }

  lemma Further(n: int, m: int, w: int)
    requires 0 <= n
    ensures w > m ==> n * w >= n * m + n
  {
    if w > m { Monotone(n, m + 1, w); }
  }

  predicate Between(a: int, b: int, v: int) { a <= v <= b || b <= v <= a }

  // Every point lies in the box of the endpoints.
  lemma InBox(a: Point, b: Point, k: nat)
    requires k <= Extent(a, b)
    ensures var p := Turns(a, b, k).0; Between(a.x, b.x, p.x) && Between(a.y, b.y, p.y)
  {
    var u, v := TurnsNear(a, b, k);
    StepsInside(Abs(b.x - a.x), Abs(b.y - a.y), k, u, v);
    StepsBetween(a.x, b.x, u);
    StepsBetween(a.y, b.y, v);
  }

  lemma StepsBetween(a: int, b: int, u: int)
    requires 0 <= u <= Abs(b - a)
    ensures Between(a, b, a + u * Sign(a, b))
  {
  }

  // All its points make up a line.
  lemma LineOf(a: Point, b: Point)
    ensures IsLine(Trail(a, b, Extent(a, b) + 1), a, b)
  {
    var n := Extent(a, b);
    forall k | 0 <= k <= n ensures |Trail(a, b, n + 1)| == n + 1 && Trail(a, b, n + 1)[k] == Turns(a, b, k).0 {
      TrailAt(a, b, n + 1, k);
    }
    TrailAt(a, b, n + 1, 0);
    PointsLine(Trail(a, b, n + 1), a, b);
  }

  lemma PointsLine(pts: seq<Point>, a: Point, b: Point)
    requires |pts| == Extent(a, b) + 1
    requires forall k :: 0 <= k < |pts| ==> pts[k] == Turns(a, b, k).0
    ensures IsLine(pts, a, b)
  {
    LastTurn(a, b, Extent(a, b));
    forall k | 0 <= k < |pts| ensures OnLine(pts[k], k, a, b) {
      var u, v := TurnsNear(a, b, k);
      Placed(a, b, k, u, v);
    }
  }

  lemma {:induction false} TrailAt(a: Point, b: Point, n: nat, k: nat)
    requires k < n
    ensures |Trail(a, b, n)| == n && Trail(a, b, n)[k] == Turns(a, b, k).0
  {
    if n == 1 {
      assert Trail(a, b, n - 1) == [];
    } else if k == n - 1 {
      TrailAt(a, b, n - 1, 0);
    } else {
      TrailAt(a, b, n - 1, k);
    }
  }

  class Framebuffer {
    const pixels: array2<int>   // by row and column

    constructor (width: nat, height: nat)
      ensures fresh(pixels) && pixels.Length0 == height && pixels.Length1 == width
    {
      pixels := new int[height, width]((i, j) => 0);
    }

    predicate Visible(x: int, y: int) { 0 <= x < pixels.Length1 && 0 <= y < pixels.Length0 }

    method PutPixel(x: int, y: int, color: int)
      modifies pixels
      ensures forall i, j :: Visible(j, i) ==> pixels[i, j] == if j == x && i == y then color else old(pixels[i, j])
    {
      if !Visible(x, y) { return; }
      pixels[y, x] := color;
    }

    // The two tests of a turn, both on the doubled error term as it was
    method Advance(x: int, y: int, e: int, dx: int, dy: int, sx: int, sy: int, ghost a: Point, ghost b: Point)
      returns (x0: int, y0: int, err: int)
      requires dx == Abs(b.x - a.x) && dy == 0 - Abs(b.y - a.y) && sx == Sign(a.x, b.x) && sy == Sign(a.y, b.y)
      ensures (Point(x0, y0), err) == TurnOf(a, b, Point(x, y), e)
    {
      x0, y0, err := x, y, e;
      var e2 := 2 * err;
      if e2 >= dy { err, x0 := err + dy, x0 + sx; }
      if e2 <= dx { err, y0 := err + dx, y0 + sy; }
    }

    // Exactly the visible points of one line from the first endpoint to the second change.
    method DrawLine(xa: int, ya: int, x1: int, y1: int, color: int) returns (ghost pts: seq<Point>)
      modifies pixels
      ensures IsLine(pts, Point(xa, ya), Point(x1, y1))
      ensures pts == Trail(Point(xa, ya), Point(x1, y1), Extent(Point(xa, ya), Point(x1, y1)) + 1)
      ensures forall i, j :: Visible(j, i) ==>
        pixels[i, j] == if Point(j, i) in pts then color else old(pixels[i, j])
    {
      var x0, y0 := xa, ya;
      var dx := if x1 > x0 then x1 - x0 else x0 - x1;
      var sx := if x0 < x1 then 1 else -1;
      var dy := if y1 > y0 then y0 - y1 else y1 - y0;
      var sy := if y0 < y1 then 1 else -1;
      var err := dx + dy;
      ghost var a, b, k := Point(xa, ya), Point(x1, y1), 0;
      pts := [];
      while true
        invariant 0 <= k <= Extent(a, b) && pts == Trail(a, b, k)
        invariant (Point(x0, y0), err) == Turns(a, b, k)
        invariant forall i, j :: Visible(j, i) ==>
          pixels[i, j] == if Point(j, i) in pts then color else old(pixels[i, j])
        decreases Extent(a, b) - k
      {
        PutPixel(x0, y0, color);
        pts := pts + [Point(x0, y0)];
        LastTurn(a, b, k);
        NextTurn(a, b, k, Point(x0, y0), err);
        if x0 == x1 && y0 == y1 { break; }
        x0, y0, err := Advance(x0, y0, err, dx, dy, sx, sy, a, b);
        k := k + 1;
      }
      LineOf(a, b);
    }
  }
}
