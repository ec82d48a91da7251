/** The 32-bit words of fb_draw_line: exactly which lines its loop draws without overflow. */
module LineWords {
  import opened Line

  // ----- greatest common divisors -----

  function Gcd(a: nat, b: nat): (g: nat)
    ensures a > 0 || b > 0 ==> g > 0
    decreases b
  {
    if b == 0 then a else Gcd(b, a % b)
  }

  // The divisor, and the divisor as a combination
  lemma {:induction false} Bezout(a: nat, b: nat) returns (p: nat, q: nat, x: int, y: int)
    ensures a == Gcd(a, b) * p && b == Gcd(a, b) * q && a * x + b * y == Gcd(a, b)
    decreases b
  {
    if b == 0 {
      p, q, x, y := 1, 0, 1, 0;
    } else {
      var d, r := Divided(a, b);
      var p0, q0, x0, y0 := Bezout(b, r);
      p, q, x, y := Euclid(a, b, d, r, Gcd(b, r), p0, q0, x0, y0);
    }
  }

  lemma Divided(a: nat, b: nat) returns (d: nat, r: nat)
    requires 0 < b
    ensures a == b * d + r && r < b && Gcd(a, b) == Gcd(b, r)
  {
    d, r := a / b, a % b;
  }

  lemma Euclid(a: nat, b: nat, d: nat, r: nat, g: nat, p: nat, q: nat, x: int, y: int)
    returns (p': nat, q': nat, x': int, y': int)
    requires a == b * d + r && b == g * p && r == g * q && b * x + r * y == g
    ensures a == g * p' && b == g * q' && a * x' + b * y' == g
  {
    p', q', x', y' := p * d + q, p, y, x - d * y;
    EuclidDivides(a, b, d, r, g, p, q);
    EuclidCombines(a, b, d, r, g, x, y);
  }

  lemma EuclidDivides(a: nat, b: nat, d: nat, r: nat, g: nat, p: nat, q: nat)
    requires a == b * d + r && b == g * p && r == g * q
    ensures a == g * (p * d + q)
  {
    Assoc(g, p, d);
  }

  lemma EuclidCombines(a: nat, b: nat, d: nat, r: nat, g: nat, x: int, y: int)
    requires a == b * d + r && b * x + r * y == g
    ensures a * y + b * (x - d * y) == g
  {
    assert a * y == (b * d) * y + r * y;
    assert b * (x - d * y) == b * x - b * (d * y);
    Assoc(b, d, y);
  }

  lemma Assoc(a: int, b: int, c: int)
    ensures (a * b) * c == a * (b * c)
  {
  }

  // ----- the deviations a line goes through -----

  predicate InRange(n: nat, d: int) { 0 - n < 2 * d <= n }

  // A line of n dominant steps and m of the other kind, by how far, in units of 1 / n pixels,
  // it is off the ideal one after k turns
  function Dev(n: nat, m: nat, k: nat): (d: int)
    requires m <= n
    ensures if n == 0 then d == 0 else InRange(n, d)
  {
    if k == 0 then 0 else Next(n, m, Dev(n, m, k - 1))
  }

  // The other step is taken if it leaves the line at most half a pixel ahead.
  function Next(n: nat, m: nat, d: int): int { if 2 * (d + n - m) <= n then d + n - m else d - m }

  // w of the other steps have been taken.
  lemma {:induction false} DevSteps(n: nat, m: nat, k: nat) returns (w: nat)
    requires m <= n
    ensures Dev(n, m, k) == (n as int) * w - m * k
  {
    if k == 0 {
      w := 0;
    } else {
      var w0 := DevSteps(n, m, k - 1);
      StepSum(n, m, k - 1, w0, Dev(n, m, k - 1));
      w := if 2 * (Dev(n, m, k - 1) + n - m) <= n then w0 + 1 else w0;
    }
  }

  lemma StepSum(n: int, m: int, k: int, w: int, d: int)
    requires d == n * w - m * k
    ensures d + n - m == n * (w + 1) - m * (k + 1) && d - m == n * w - m * (k + 1)
  {
  }

  // What the code keeps is that deviation, shifted and signed by the octant.
  lemma {:induction false} ErrIsDev(a: Point, b: Point, k: nat)
    ensures var (dx, dy, err) := (Abs(b.x - a.x), Abs(b.y - a.y), Turns(a, b, k).1);
      err == if dx >= dy then Dev(dx, dy, k) + dx - dy else 0 - (Dev(dy, dx, k) + dy - dx)
  {
    if k == 0 {
    } else {
      ErrIsDev(a, b, k - 1);
    }
  }

  // n and m in units of their divisor, and the divisor as a combination
  ghost predicate Units(n: nat, m: nat, g: nat, p: nat, q: nat, x: int, y: int) {
    0 < g && 0 < p && n == g * p && m == g * q && p * x + q * y == 1
  }

  lemma UnitsOf(n: nat, m: nat) returns (g: nat, p: nat, q: nat, x: int, y: int)
    requires 0 < n
    ensures g == Gcd(n, m) && Units(n, m, g, p, q, x, y)
  {
    g := Gcd(n, m);
    p, q, x, y := Bezout(n, m);
    Reduced(n, m, g, p, q, x, y);
  }

  lemma Reduced(n: nat, m: nat, g: nat, p: nat, q: nat, x: int, y: int)
    requires 0 < g && n == g * p && m == g * q && n * x + m * y == g
    ensures p * x + q * y == 1
  {
    Assoc(g, p, x);
    Assoc(g, q, y);
    Cancel(g, p * x + q * y, 1);
  }

  lemma Cancel(g: int, a: int, b: int)
    requires g > 0 && g * a == g * b
    ensures a == b
  {
    if a < b { Further(g, a, b); }
    if b < a { Further(g, b, a); }
  }

  // Every deviation is a multiple of the divisor ...
  lemma DevMultiple(n: nat, m: nat, k: nat, g: nat, p: nat, q: nat, x: int, y: int) returns (j: int)
    requires m <= n && Units(n, m, g, p, q, x, y)
    ensures Dev(n, m, k) == g * j
  {
    var w := DevSteps(n, m, k);
    j := (p as int) * w - q * k;
    UnitSum(n, m, g, p, q, w, k);
  }

  lemma UnitSum(n: int, m: int, g: int, p: int, q: int, w: int, k: int)
    requires n == g * p && m == g * q
    ensures n * w - m * k == g * (p * w - q * k)
  {
    Assoc(g, p, w);
    Assoc(g, q, k);
  }

  // ... and every multiple in range is met on the way.
  lemma DevHits(n: nat, m: nat, k: nat, v: int, e: int)
    requires m <= n && k < n && InRange(n, e) && e == n * v - m * k
    ensures Dev(n, m, k) == e
  {
    var w := DevSteps(n, m, k);
    assert n * w - n * v == n * (w - v);
    OneStep(n, Dev(n, m, k), e, w - v);
  }

  lemma TurnFor(n: nat, m: nat, g: nat, p: nat, q: nat, x: int, y: int, j: int) returns (k: nat, v: int)
    requires Units(n, m, g, p, q, x, y)
    ensures k < n && g * j == n * v - m * k
  {
    var z: int;
    k, z := Residue(0 - j * y, p);
    v := j * x - q * z;
    Solves(p, q, x, y, j, k, z);
    Scales(n, m, g, p, q, j, k, v);
  }

  lemma Residue(i: int, p: nat) returns (k: nat, z: int)
    requires 0 < p
    ensures k < p && i == p * z + k
  {
    k, z := i % p, i / p;
  }

  lemma Solves(p: nat, q: nat, x: int, y: int, j: int, k: nat, z: int)
    requires p * x + q * y == 1 && 0 - j * y == p * z + k
    ensures p * (j * x - q * z) - q * k == j
  {
    assert p * (j * x - q * z) == p * (j * x) - p * (q * z);
    assert p * (j * x) == j * (p * x) && p * (q * z) == q * (p * z);
    assert q * k == q * (0 - j * y) - q * (p * z) && q * (0 - j * y) == 0 - j * (q * y);
    assert j * (p * x) + j * (q * y) == j * (p * x + q * y);
  }

  lemma Scales(n: nat, m: nat, g: nat, p: nat, q: nat, j: int, k: nat, v: int)
    requires n == g * p && m == g * q && 0 < g && k < p && p * v - q * k == j
    ensures n * v - m * k == g * j && k < n
  {
    UnitSum(n, m, g, p, q, v, k);
    assert p <= g * p by { Monotone(p, 1, g); }
  }

  // Two deviations in range that differ by a multiple of n are the same.
  lemma OneStep(n: nat, d: int, e: int, i: int)
    requires 0 < n && InRange(n, d) && InRange(n, e) && d - e == n * i
    ensures d == e
  {
    if i > 0 { Monotone(n, 1, i); }
    if i < 0 { Monotone(n, i, -1); }
  }

  // The largest deviation of a line: half of n, cut to a multiple of the divisor
  function MaxDev(n: nat, m: nat): nat
    requires 0 < n
  {
    Gcd(n, m) * (n / Gcd(n, m) / 2)
  }

  // All deviations lie between the divisor less n less the largest one, and the largest one.
  lemma DevRange(n: nat, m: nat, k: nat)
    requires 0 < n && m <= n
    ensures Gcd(n, m) + MaxDev(n, m) - n <= Dev(n, m, k) <= MaxDev(n, m)
  {
    var g, p, q, x, y := UnitsOf(n, m);
    var j := DevMultiple(n, m, k, g, p, q, x, y);
    RangeOf(n, g, p, j);
  }

  lemma RangeOf(n: nat, g: nat, p: nat, j: int)
    requires 0 < g && 0 < p && n == g * p && InRange(n, g * j)
    ensures n / g == p && g + g * (p / 2) - n <= g * j <= g * (p / 2)
  {
    QuotientIs(n, g, p);
    HalvesIn(g, p, j);
    Ordered(g, j, p / 2);
    Ordered(g, 1 + p / 2 - p, j);
    assert g * (1 + p / 2 - p) == g + g * (p / 2) - g * p;
  }

  lemma QuotientIs(n: nat, g: nat, p: nat)
    requires 0 < g && n == g * p
    ensures n / g == p
  {
    var d := n / g;
    assert n == g * d + n % g;
    assert g * p - g * d == g * (p - d);
    if d < p { Ordered(g, 1, p - d); }
    if p < d { Ordered(g, 1, d - p); }
  }

  lemma Ordered(g: int, a: int, b: int)
    requires 0 <= g && a <= b
    ensures g * a <= g * b
  {
  }

  lemma HalvesIn(g: nat, p: nat, j: int)
    requires 0 < g && 0 < p && InRange(g * p, g * j)
    ensures 1 + p / 2 - p <= j <= p / 2
  {
    assert 2 * (g * j) == g * (2 * j);
    if 2 * j > p { Further(g, p, 2 * j); }
    AtMostMinus(g, p, 2 * j);
  }

  lemma AtMostMinus(g: nat, p: nat, i: int)
    ensures i <= 0 - p ==> g * i <= 0 - g * p
  {
    if i <= 0 - p { Ordered(g, p, 0 - i); }
  }

  // Both ends are met, and with other steps to take so is the largest deviation by one of them.
  lemma DevEnds(n: nat, m: nat) returns (top: nat, low: nat)
    requires 0 < n && m <= n
    ensures top < n && Dev(n, m, top) == MaxDev(n, m)
    ensures low < n && Dev(n, m, low) == Gcd(n, m) + MaxDev(n, m) - n
  {
    var g, p, q, x, y := MaxDevIs(n, m);
    top, low := EndsOf(n, m, g, p, q, x, y, MaxDev(n, m));
  }

  lemma MaxDevIs(n: nat, m: nat) returns (g: nat, p: nat, q: nat, x: int, y: int)
    requires 0 < n
    ensures g == Gcd(n, m) && Units(n, m, g, p, q, x, y) && MaxDev(n, m) == g * (p / 2)
  {
    g, p, q, x, y := UnitsOf(n, m);
    QuotientIs(n, g, p);
  }

  lemma EndsOf(n: nat, m: nat, g: nat, p: nat, q: nat, x: int, y: int, d: nat) returns (top: nat, low: nat)
    requires m <= n && Units(n, m, g, p, q, x, y) && d == g * (p / 2)
    ensures top < n && Dev(n, m, top) == d && low < n && Dev(n, m, low) == g + d - n
  {
    EndsIn(n, g, p);
    top := Hits(n, m, g, p, q, x, y, p / 2, d);
    low := Hits(n, m, g, p, q, x, y, 1 + p / 2 - p, g + d - n);
  }

  lemma Hits(n: nat, m: nat, g: nat, p: nat, q: nat, x: int, y: int, j: int, e: int) returns (k: nat)
    requires m <= n && Units(n, m, g, p, q, x, y) && InRange(n, e) && e == g * j
    ensures k < n && Dev(n, m, k) == e
  {
    var v: int;
    k, v := TurnFor(n, m, g, p, q, x, y, j);
    DevHits(n, m, k, v, e);
  }

  lemma EndsIn(n: nat, g: nat, p: nat)
    requires 0 < g && 0 < p && n == g * p
    ensures InRange(n, g * (p / 2)) && InRange(n, g * (1 + p / 2 - p))
    ensures g * (1 + p / 2 - p) == g + g * (p / 2) - n
  {
    assert g * (1 + p / 2 - p) == g + g * (p / 2) - g * p;
    Ordered(g, 2 * (p / 2), p);
    assert g * (2 * (p / 2)) == 2 * (g * (p / 2));
    Ordered(g, p + 1, 2 + 2 * (p / 2));
    assert g * (2 + 2 * (p / 2)) == 2 * g + 2 * (g * (p / 2)) && g * (p + 1) == g * p + g;
  }

  // A turn with such a step leads to the largest deviation.
  lemma StepToMax(n: nat, m: nat) returns (k: nat)
    requires 0 < m < n
    ensures k < n && Dev(n, m, k) + n - m == MaxDev(n, m)
  {
    var g, p, q, x, y := MaxDevIs(n, m);
    k := StepOf(n, m, g, p, q, x, y, p / 2, MaxDev(n, m));
  }

  lemma StepOf(n: nat, m: nat, g: nat, p: nat, q: nat, x: int, y: int, h: nat, d: nat) returns (k: nat)
    requires 0 < m < n && Units(n, m, g, p, q, x, y) && h == p / 2 && d == g * h
    ensures k < n && Dev(n, m, k) + n - m == d
  {
    StepIn(n, m, g, p, q, h);
    k := Hits(n, m, g, p, q, x, y, h + q - p, d + m - n);
  }

  lemma StepIn(n: nat, m: nat, g: nat, p: nat, q: nat, h: nat)
    requires 0 < g && 0 < p && n == g * p && m == g * q && 0 < m < n && h == p / 2
    ensures InRange(n, g * h + m - n) && g * (h + q - p) == g * h + m - n
  {
    assert g * (h + q - p) == g * h - g * p + g * q;
    EndsIn(n, g, p);
    AtLeastOne(g, q);
    assert g * (1 + h - p) == g + g * h - n;
  }

  lemma AtLeastOne(g: nat, q: nat)
    requires 0 < g * q
    ensures g <= g * q
  {
    Ordered(g, 1, q);
  }

  // ----- the words of the loop -----

  predicate Fits32(v: int) { -0x8000_0000 <= v < 0x8000_0000 }

  // What a turn computes: the doubled error term, the term after either test
  predicate WordsFit(dx: int, dy: int, err: int) {
    var e1 := if 2 * err >= dy then err + dy else err;
    Fits32(2 * err) && Fits32(e1) && Fits32(if 2 * err <= dx then e1 + dx else e1)
  }

  predicate TurnFits(a: Point, b: Point, k: nat) {
    WordsFit(Abs(b.x - a.x), 0 - Abs(b.y - a.y), Turns(a, b, k).1)
  }

  // No signed 32-bit word overflows before or in the loop.
  ghost predicate LineFits(a: Point, b: Point) {
    && Fits32(Abs(b.x - a.x)) && Fits32(0 - Abs(b.y - a.y)) && Fits32(Turns(a, b, 0).1)
    && forall k: nat :: k < Extent(a, b) ==> TurnFits(a, b, k)
  }

  // The condition on the extents alone
  predicate ShortEnough(dx: nat, dy: nat) {
    if dx == 0 && dy == 0 then true
    else if dx >= dy then FlatShortEnough(dx, dy, MaxDev(dx, dy), Gcd(dx, dy))
    else SteepShortEnough(dy, dx, MaxDev(dy, dx))
  }

  predicate FlatShortEnough(n: nat, m: nat, d: nat, g: nat) {
    n < 0x8000_0000 && 2 * (d + n - m) < 0x8000_0000 && 2 * m - d - g <= 0x8000_0000
  }

  predicate SteepShortEnough(n: nat, m: nat, d: nat) {
    n <= 0x8000_0000 && 2 * (d + n - m) <= 0x8000_0000 && (m > 0 ==> n + d <= 0x8000_0000)
  }

  // What a turn asks of the deviation before it, on a line that is flat or steep
  predicate FlatOk(n: nat, m: nat, d: int) {
    2 * (d + n - m) < 0x8000_0000 && 0 - 0x8000_0000 <= d + n - 2 * m && Fits32(Next(n, m, d) + n - m)
  }

  predicate SteepOk(n: nat, m: nat, d: int) {
    && 2 * (d + n - m) <= 0x8000_0000 && (2 * (d + n - m) <= n ==> d + n - m + n <= 0x8000_0000)
    && Fits32(0 - (Next(n, m, d) + n - m))
  }

  lemma FlatWords(n: nat, m: nat, d: int)
    requires m <= n && 0 < n < 0x8000_0000 && InRange(n, d)
    ensures WordsFit(n, 0 - m, d + n - m) <==> FlatOk(n, m, d)
  {
  }

  lemma SteepWords(n: nat, m: nat, d: int)
    requires m < n <= 0x8000_0000 && InRange(n, d)
    ensures WordsFit(m, 0 - n, 0 - (d + n - m)) <==> SteepOk(n, m, d)
  {
  }

  lemma FlatTurn(a: Point, b: Point, k: nat)
    requires Abs(b.x - a.x) >= Abs(b.y - a.y) && 0 < Abs(b.x - a.x) < 0x8000_0000
    ensures var (n, m) := (Abs(b.x - a.x), Abs(b.y - a.y)); TurnFits(a, b, k) <==> FlatOk(n, m, Dev(n, m, k))
  {
    ErrIsDev(a, b, k);
    FlatWords(Abs(b.x - a.x), Abs(b.y - a.y), Dev(Abs(b.x - a.x), Abs(b.y - a.y), k));
  }

  lemma SteepTurn(a: Point, b: Point, k: nat)
    requires Abs(b.x - a.x) < Abs(b.y - a.y) <= 0x8000_0000
    ensures var (n, m) := (Abs(b.y - a.y), Abs(b.x - a.x)); TurnFits(a, b, k) <==> SteepOk(n, m, Dev(n, m, k))
  {
    ErrIsDev(a, b, k);
    SteepWords(Abs(b.y - a.y), Abs(b.x - a.x), Dev(Abs(b.y - a.y), Abs(b.x - a.x), k));
  }

  lemma NextDev(n: nat, m: nat, k: nat)
    requires m <= n
    ensures Dev(n, m, k + 1) == Next(n, m, Dev(n, m, k))
  {
  }

  // The loop draws a line without overflow exactly if its extents meet the condition.
  lemma LineExact(a: Point, b: Point)
    ensures LineFits(a, b) <==> ShortEnough(Abs(b.x - a.x), Abs(b.y - a.y))
  {
    var dx, dy := Abs(b.x - a.x), Abs(b.y - a.y);
    if dx == 0 && dy == 0 {
    } else if dx >= dy {
      if ShortEnough(dx, dy) { FlatFits(a, b); }
      if LineFits(a, b) { FlatShort(a, b); }
    } else {
      if ShortEnough(dx, dy) { SteepFits(a, b); }
      if LineFits(a, b) { SteepShort(a, b); }
    }
  }

  lemma FlatFits(a: Point, b: Point)
    requires Abs(b.x - a.x) >= Abs(b.y - a.y) && 0 < Abs(b.x - a.x)
    requires ShortEnough(Abs(b.x - a.x), Abs(b.y - a.y))
    ensures LineFits(a, b)
  {
    var n, m := Abs(b.x - a.x), Abs(b.y - a.y);
    forall k: nat | k < n ensures TurnFits(a, b, k) {
      FlatTurn(a, b, k);
      DevRange(n, m, k);
      DevRange(n, m, k + 1);
      NextDev(n, m, k);
    }
  }

  lemma FlatShort(a: Point, b: Point)
    requires Abs(b.x - a.x) >= Abs(b.y - a.y) && 0 < Abs(b.x - a.x) && LineFits(a, b)
    ensures ShortEnough(Abs(b.x - a.x), Abs(b.y - a.y))
  {
    var n, m := Abs(b.x - a.x), Abs(b.y - a.y);
    var top, low := DevEnds(n, m);
    FlatTurn(a, b, top);
    FlatTurn(a, b, low);
    assert TurnFits(a, b, top) && TurnFits(a, b, low);
  }

  lemma SteepFits(a: Point, b: Point)
    requires Abs(b.x - a.x) < Abs(b.y - a.y) && ShortEnough(Abs(b.x - a.x), Abs(b.y - a.y))
    ensures LineFits(a, b)
  {
    var n, m := Abs(b.y - a.y), Abs(b.x - a.x);
    forall k: nat | k < n ensures TurnFits(a, b, k) {
      SteepTurn(a, b, k);
      DevRange(n, m, k);
      DevRange(n, m, k + 1);
      NextDev(n, m, k);
    }
  }

  lemma SteepShort(a: Point, b: Point)
    requires Abs(b.x - a.x) < Abs(b.y - a.y) && LineFits(a, b)
    ensures ShortEnough(Abs(b.x - a.x), Abs(b.y - a.y))
  {
    var n, m := Abs(b.y - a.y), Abs(b.x - a.x);
    var top, low := DevEnds(n, m);
    SteepTurn(a, b, top);
    assert TurnFits(a, b, top);
    if m > 0 {
      var k := StepToMax(n, m);
      SteepTurn(a, b, k);
      assert TurnFits(a, b, k);
      DevRange(n, m, k + 1);
      NextDev(n, m, k);
    }
  }

  // ----- what the condition comes to -----

  lemma MaxDevBound(n: nat, m: nat)
    requires 0 < n && m <= n
    ensures 2 * MaxDev(n, m) <= n < 2 * (Gcd(n, m) + MaxDev(n, m))
  {
    var top, low := DevEnds(n, m);
  }

  lemma BoundFits(n: nat, m: nat, d: nat, g: nat)
    requires m <= n && 2 * d <= n < 2 * (g + d) && 3 * n < 0x8000_0000 + 2 * m && 3 * n <= 0x1_0000_0000
    ensures FlatShortEnough(n, m, d, g) && SteepShortEnough(n, m, d)
  {
  }

  // Lines of which three times the longer extent is at most 2^32, and below 2^31 plus twice the
  // shorter one, are drawn.
  lemma ShortFits(a: Point, b: Point)
    requires var (dx, dy) := (Abs(b.x - a.x), Abs(b.y - a.y));
      3 * Max(dx, dy) <= 0x1_0000_0000 && 3 * Max(dx, dy) < 0x8000_0000 + 2 * (if dx < dy then dx else dy)
    ensures LineFits(a, b)
  {
    var dx, dy := Abs(b.x - a.x), Abs(b.y - a.y);
    LineExact(a, b);
    if dx > 0 || dy > 0 {
      var n, m := Max(dx, dy), if dx < dy then dx else dy;
      MaxDevBound(n, m);
      BoundFits(n, m, MaxDev(n, m), Gcd(n, m));
    }
  }

  // A level line is drawn exactly if it is shorter than 2^30: one of 2^30 pixels overflows.
  lemma LevelExact(a: Point, b: Point)
    requires a.y == b.y
    ensures LineFits(a, b) <==> Abs(b.x - a.x) < 0x4000_0000
  {
    LineExact(a, b);
    var n := Abs(b.x - a.x);
    if n > 0 { LevelDev(n); }
  }

  lemma LevelDev(n: nat)
    requires 0 < n
    ensures Gcd(n, 0) == n && MaxDev(n, 0) == 0
  {
    assert n / n == 1;
  }

  // A diagonal is drawn whenever its extent is a word.
  lemma DiagonalExact(a: Point, b: Point)
    requires Abs(b.x - a.x) == Abs(b.y - a.y)
    ensures LineFits(a, b) <==> Abs(b.x - a.x) < 0x8000_0000
  {
    LineExact(a, b);
    var n := Abs(b.x - a.x);
    if n > 0 { DiagonalDev(n); }
  }

  lemma DiagonalDev(n: nat)
    requires 0 < n
    ensures Gcd(n, n) == n && MaxDev(n, n) == 0
  {
    assert n % n == 0;
    assert Gcd(n, n) == Gcd(n, 0);
    assert n / n == 1;
  }
}
