/**
 * The value-level part of the distance-field generator of
 * org.newdawn.slick.font.effects.DistanceFieldEffect: the inside/outside test on an RGB
 * pixel, the squared distance, the clamped search window, the nearest opposite-class cell,
 * the mapping of that distance into [0,1] around 0.5, its 8-bit quantisation and the
 * packing of alpha and fill colour into one ARGB pixel.
 *
 * The search result is the squared distance `closestSquareDist` of the source. The source
 * turns it into a float with a square root and a division; here a float value is kept
 * exactly as a `Distance` (class of the sample, squared distance, search radius) and its
 * real value is `SignedValue(d, root)` for the real `root` with `root * root == squareDist`.
 */
module SignedDistance {

  /** A 32-bit ARGB pixel, 0xAARRGGBB, as Java's getRGB/setRGB exchange it. */
  type Pixel = bv32

  function Min(a: int, b: int): int { if a <= b then a else b }
  function Max(a: int, b: int): int { if a >= b then a else b }

  // ---------------------------------------------------------------------------------------
  // Mask construction

  /** A pixel is "inside" when any of its red, green or blue channels is at least 128. */
  function Inside(rgb: Pixel): (r: bool)
    ensures r <==> (rgb >> 16) & 0xFF >= 128 || (rgb >> 8) & 0xFF >= 128 || rgb & 0xFF >= 128
  {
    rgb & 0x80_8080 != 0
  }

  // ---------------------------------------------------------------------------------------
  // Squared distance

  function SquareDist(x1: int, y1: int, x2: int, y2: int): (r: nat)
    ensures r == 0 <==> x1 == x2 && y1 == y2
  {
    var dx := x1 - x2;
    var dy := y1 - y2;
    SquareIsNonNegative(dx);
    SquareIsNonNegative(dy);
    dx * dx + dy * dy
  }

  lemma SquareIsNonNegative(d: int)
    ensures d * d >= 0
    ensures d != 0 ==> d * d > 0
  {
    if d < 0 {
      assert d * d == (-d) * (-d);
    }
  }

  lemma SquareDistSymmetric(x1: int, y1: int, x2: int, y2: int)
    ensures SquareDist(x1, y1, x2, y2) == SquareDist(x2, y2, x1, y1)
  {
    assert (x1 - x2) * (x1 - x2) == (x2 - x1) * (x2 - x1);
    assert (y1 - y2) * (y1 - y2) == (y2 - y1) * (y2 - y1);
  }

  lemma MulMonotonic(a: int, b: int, c: int)
    requires a <= b && c >= 0
    ensures a * c <= b * c
  {
    assert b * c - a * c == (b - a) * c;
  }

  /** |d| > m implies d*d > m*m, for a non-negative m. */
  lemma SquareExceeds(d: int, m: int)
    requires m >= 0 && (d > m || d < -m)
    ensures d * d > m * m
  {
    var a := if d < 0 then -d else d;
    assert a * a == d * d;
    assert a * a - m * m == (a - m) * (a + m);
    MulMonotonic(1, a - m, a + m);
  }

  /** A cell whose squared distance to p is within m*m lies in the box of radius m around p. */
  lemma DiskInBox(px: int, py: int, x: int, y: int, m: int)
    requires m >= 0 && SquareDist(px, py, x, y) <= m * m
    ensures px - m <= x <= px + m && py - m <= y <= py + m
  {
    SquareIsNonNegative(px - x);
    SquareIsNonNegative(py - y);
    if px - x > m || px - x < -m {
      SquareExceeds(px - x, m);
    }
    if py - y > m || py - y < -m {
      SquareExceeds(py - y, m);
    }
  }

  // ---------------------------------------------------------------------------------------
  // The search window, one axis at a time

  /** The window [lo, hi] of radius m around p, clamped to [0, size - 1]. */
  function Window(p: int, m: nat, size: nat): (w: (int, int))
    requires 0 <= p < size
    ensures 0 <= w.0 <= p <= w.1 < size
  {
    (Max(0, p - m), Min(size - 1, p + m))
  }

  /** The clamped window holds exactly the in-bounds coordinates within m of p. */
  lemma WindowSpan(p: int, m: nat, size: nat, q: int)
    requires 0 <= p < size && 0 <= q < size
    ensures Window(p, m, size).0 <= q <= Window(p, m, size).1 <==> p - m <= q <= p + m
  {
  }

  // ---------------------------------------------------------------------------------------
  // Grids and the nearest opposite-class cell

  /** A boolean mask, indexed [x][y] like the source's boolean[width][height]. */
  type Grid = seq<seq<bool>>

  function Height(g: Grid): nat { if |g| == 0 then 0 else |g[0]| }

  predicate IsRect(g: Grid) { forall i :: 0 <= i < |g| ==> |g[i]| == Height(g) }

  /**
   * What cell (i, j) contributes to the search around (px, py): its squared distance when
   * it is of the other class than `base` and within the squared radius `sr`, else `sr`.
   */
  function Cost(g: Grid, base: bool, px: int, py: int, sr: nat, i: nat, j: nat): (c: nat)
    requires IsRect(g) && i < |g| && j < Height(g)
    ensures c <= sr
  {
    var d := SquareDist(px, py, i, j);
    if g[i][j] != base && d <= sr then d else sr
  }

  /** The least cost over cells (i, 0) .. (i, n - 1), and `sr` when there are none. */
  function ColumnMin(g: Grid, base: bool, px: int, py: int, sr: nat, i: nat, n: nat): (c: nat)
    requires IsRect(g) && i < |g| && n <= Height(g)
    ensures c <= sr
  {
    if n == 0 then sr
    else Min(ColumnMin(g, base, px, py, sr, i, n - 1), Cost(g, base, px, py, sr, i, n - 1))
  }

  /** The least cost over the columns 0 .. m - 1, and `sr` when there are none. */
  function GridMin(g: Grid, base: bool, px: int, py: int, sr: nat, m: nat): (c: nat)
    requires IsRect(g) && m <= |g|
    ensures c <= sr
  {
    if m == 0 then sr
    else Min(GridMin(g, base, px, py, sr, m - 1), ColumnMin(g, base, px, py, sr, m - 1, Height(g)))
  }

  /**
   * `c` is the nearest-opposite squared distance: no cell costs less, and `c` is `sr` or the
   * cost of some cell.
   */
  ghost predicate IsNearest(g: Grid, base: bool, px: int, py: int, sr: nat, c: nat)
    requires IsRect(g)
  {
    && c <= sr
    && (forall i, j :: 0 <= i < |g| && 0 <= j < Height(g) ==> c <= Cost(g, base, px, py, sr, i, j))
    && (c == sr || exists i, j :: 0 <= i < |g| && 0 <= j < Height(g) && Cost(g, base, px, py, sr, i, j) == c)
  }

  lemma {:induction false} ColumnMinIsLeast(g: Grid, base: bool, px: int, py: int, sr: nat, i: nat, n: nat)
    requires IsRect(g) && i < |g| && n <= Height(g)
    ensures forall j :: 0 <= j < n ==> ColumnMin(g, base, px, py, sr, i, n) <= Cost(g, base, px, py, sr, i, j)
    ensures var c := ColumnMin(g, base, px, py, sr, i, n);
      c == sr || exists j :: 0 <= j < n && Cost(g, base, px, py, sr, i, j) == c
  {
    if n > 0 {
      ColumnMinIsLeast(g, base, px, py, sr, i, n - 1);
    }
  }

  lemma {:induction false} GridMinIsLeast(g: Grid, base: bool, px: int, py: int, sr: nat, m: nat)
    requires IsRect(g) && m <= |g|
    ensures forall i, j :: 0 <= i < m && 0 <= j < Height(g) ==>
      GridMin(g, base, px, py, sr, m) <= Cost(g, base, px, py, sr, i, j)
    ensures var c := GridMin(g, base, px, py, sr, m);
      c == sr || exists i, j :: 0 <= i < m && 0 <= j < Height(g) && Cost(g, base, px, py, sr, i, j) == c
  {
    if m > 0 {
      GridMinIsLeast(g, base, px, py, sr, m - 1);
      ColumnMinIsLeast(g, base, px, py, sr, m - 1, Height(g));
      var c := GridMin(g, base, px, py, sr, m);
      var c0 := GridMin(g, base, px, py, sr, m - 1);
      var c1 := ColumnMin(g, base, px, py, sr, m - 1, Height(g));
      if c != sr {
        if c == c0 {
          var i, j :| 0 <= i < m - 1 && 0 <= j < Height(g) && Cost(g, base, px, py, sr, i, j) == c0;
          assert 0 <= i < m;
        } else {
          var j :| 0 <= j < Height(g) && Cost(g, base, px, py, sr, m - 1, j) == c1;
          assert Cost(g, base, px, py, sr, m - 1, j) == c;
        }
      }
    }
  }

  /** The nearest-opposite characterisation determines the distance uniquely. */
  lemma NearestIsUnique(g: Grid, base: bool, px: int, py: int, sr: nat, c1: nat, c2: nat)
    requires IsRect(g)
    requires IsNearest(g, base, px, py, sr, c1) && IsNearest(g, base, px, py, sr, c2)
    ensures c1 == c2
  {
    if c1 != sr {
      var i, j :| 0 <= i < |g| && 0 <= j < Height(g) && Cost(g, base, px, py, sr, i, j) == c1;
      assert c2 <= c1;
    }
    if c2 != sr {
      var i, j :| 0 <= i < |g| && 0 <= j < Height(g) && Cost(g, base, px, py, sr, i, j) == c2;
      assert c1 <= c2;
    }
  }

  /**
   * The squared distance from the sample (px, py) to the nearest cell of the other class
   * within the search radius maxDistance, or maxDistance squared when there is none.
   */
  function Closest(g: Grid, px: nat, py: nat, maxDistance: nat): (c: nat)
    requires IsRect(g) && px < |g| && py < Height(g)
    ensures c <= maxDistance * maxDistance
  {
    GridMin(g, g[px][py], px, py, maxDistance * maxDistance, |g|)
  }

  lemma ClosestIsNearest(g: Grid, px: nat, py: nat, maxDistance: nat)
    requires IsRect(g) && px < |g| && py < Height(g)
    ensures IsNearest(g, g[px][py], px, py, maxDistance * maxDistance, Closest(g, px, py, maxDistance))
  {
    GridMinIsLeast(g, g[px][py], px, py, maxDistance * maxDistance, |g|);
  }

  /**
   * `Closest` is the minimum squared distance over the opposite-class cells within the
   * squared radius, and the squared radius itself when there are no such cells.
   */
  lemma ClosestIsMinimum(g: Grid, px: nat, py: nat, maxDistance: nat)
    requires IsRect(g) && px < |g| && py < Height(g)
    ensures var c, sr, base := Closest(g, px, py, maxDistance), maxDistance * maxDistance, g[px][py];
      && c <= sr
      && (forall i, j :: 0 <= i < |g| && 0 <= j < Height(g) && g[i][j] != base && SquareDist(px, py, i, j) <= sr
            ==> c <= SquareDist(px, py, i, j))
      && ((exists i, j :: 0 <= i < |g| && 0 <= j < Height(g) && g[i][j] != base && SquareDist(px, py, i, j) <= sr)
            ==> exists i, j :: 0 <= i < |g| && 0 <= j < Height(g) && g[i][j] != base && SquareDist(px, py, i, j) == c)
      && ((forall i, j :: 0 <= i < |g| && 0 <= j < Height(g) && SquareDist(px, py, i, j) <= sr ==> g[i][j] == base)
            ==> c == sr)
  {
    var c, sr, base := Closest(g, px, py, maxDistance), maxDistance * maxDistance, g[px][py];
    ClosestIsNearest(g, px, py, maxDistance);
    forall i, j | 0 <= i < |g| && 0 <= j < Height(g) && g[i][j] != base && SquareDist(px, py, i, j) <= sr
      ensures c <= SquareDist(px, py, i, j)
    {
      assert c <= Cost(g, base, px, py, sr, i, j);
    }
    if exists i, j :: 0 <= i < |g| && 0 <= j < Height(g) && g[i][j] != base && SquareDist(px, py, i, j) <= sr {
      var i, j :| 0 <= i < |g| && 0 <= j < Height(g) && g[i][j] != base && SquareDist(px, py, i, j) <= sr;
      assert c <= SquareDist(px, py, i, j) <= sr;
      if c == sr {
        assert SquareDist(px, py, i, j) == c;
      } else {
        var i', j' :| 0 <= i' < |g| && 0 <= j' < Height(g) && Cost(g, base, px, py, sr, i', j') == c;
        assert g[i'][j'] != base && SquareDist(px, py, i', j') == c;
      }
    }
    if c != sr {
      var i', j' :| 0 <= i' < |g| && 0 <= j' < Height(g) && Cost(g, base, px, py, sr, i', j') == c;
      assert g[i'][j'] != base && SquareDist(px, py, i', j') <= sr;
    }
  }

  /**
   * With a radius of at least 1, the nearest-opposite distance is never 0: the sample cell
   * itself is of the sample's class, so every opposite cell lies at squared distance >= 1.
   */
  lemma ClosestIsPositive(g: Grid, px: nat, py: nat, maxDistance: nat)
    requires IsRect(g) && px < |g| && py < Height(g) && maxDistance >= 1
    ensures Closest(g, px, py, maxDistance) >= 1
  {
    var c, sr, base := Closest(g, px, py, maxDistance), maxDistance * maxDistance, g[px][py];
    ClosestIsNearest(g, px, py, maxDistance);
    assert sr >= 1 by {
      assert maxDistance * maxDistance >= maxDistance * 1;
    }
    if c != sr {
      var i, j :| 0 <= i < |g| && 0 <= j < Height(g) && Cost(g, base, px, py, sr, i, j) == c;
      assert g[i][j] != base;
      assert (i, j) != (px, py);
    }
  }

  // ---------------------------------------------------------------------------------------
  // Sampling

  /** The centre of output cell o's block lies inside an input axis of length size. */
  lemma SampleInRange(o: nat, size: nat, downscale: nat)
    requires downscale >= 1 && o < size / downscale
    ensures o * downscale + downscale / 2 < size
  {
    var q, r := size / downscale, size % downscale;
    assert size == q * downscale + r && r >= 0;
    MulMonotonic(o + 1, q, downscale);
    assert (o + 1) * downscale == o * downscale + downscale;
  }

  lemma ProductIsPositive(a: nat, b: nat)
    requires a >= 1 && b >= 1
    ensures a * b >= 1
  {
    assert a * b >= 1 * b;
  }

  /** The distance stored for output cell (ox, oy) of mask g. */
  function SampleField(g: Grid, ox: nat, oy: nat, downscale: nat, spread: nat): (d: Distance)
    requires IsRect(g) && downscale >= 1 && spread >= 1
    requires ox < |g| / downscale && oy < Height(g) / downscale
    ensures ValidDistance(d)
    ensures d.squareDist >= 1
  {
    SampleInRange(ox, |g|, downscale);
    SampleInRange(oy, Height(g), downscale);
    ProductIsPositive(downscale, spread);
    var px, py, m := ox * downscale + downscale / 2, oy * downscale + downscale / 2, downscale * spread;
    ClosestIsPositive(g, px, py, m);
    Distance(g[px][py], Closest(g, px, py, m), m)
  }

  // ---------------------------------------------------------------------------------------
  // The distance value

  /**
   * The float findSignedDistance returns, kept exactly: the sample's class, the squared
   * distance found, and the search radius.
   */
  datatype Distance = Distance(inside: bool, squareDist: nat, maxDistance: nat)

  predicate ValidDistance(d: Distance)
  {
    d.maxDistance >= 1 && d.squareDist <= d.maxDistance * d.maxDistance
  }

  function RMin(a: real, b: real): real { if a <= b then a else b }

  /** 0.5 +- 0.5 * min(1, root / maxDistance), where root is the square root of squareDist. */
  function SignedValue(d: Distance, root: real): (v: real)
    requires d.maxDistance >= 1
    ensures root >= 0.0 ==> 0.0 <= v <= 1.0
    ensures root >= 0.0 && d.inside ==> v >= 0.5
    ensures root >= 0.0 && !d.inside ==> v <= 0.5
  {
    var n := RMin(1.0, root / d.maxDistance as real);
    if d.inside then 0.5 + 0.5 * n else 0.5 - 0.5 * n
  }

  lemma RealMulMonotonic(a: real, b: real, c: real)
    requires a <= b && c >= 0.0
    ensures a * c <= b * c
  {
    assert b * c - a * c == (b - a) * c;
  }

  /** For non-negative reals, a < b implies a * a < b * b. */
  lemma RealSquareMonotonic(a: real, b: real)
    requires 0.0 <= a < b
    ensures a * a < b * b
  {
    var aa, ab, bb := a * a, a * b, b * b;
    assert aa <= ab by { assert ab - aa == a * (b - a); }
    assert ab < bb by { assert bb - ab == b * (b - a); }
  }

  /** The root of a valid distance lies in [0, maxDistance]. */
  lemma RootBounds(d: Distance, root: real)
    requires ValidDistance(d) && root >= 0.0 && root * root == d.squareDist as real
    ensures root <= d.maxDistance as real
    ensures root == 0.0 <==> d.squareDist == 0
    ensures root == d.maxDistance as real <==> d.squareDist == d.maxDistance * d.maxDistance
  {
    var m := d.maxDistance as real;
    assert (d.maxDistance * d.maxDistance) as real == m * m;
    if root > m {
      RealSquareMonotonic(m, root);
    }
    if root < m {
      RealSquareMonotonic(root, m);
    }
    if root > 0.0 {
      RealSquareMonotonic(0.0, root);
    }
  }

  /**
   * The value lies in [0, 1]; it is above 0.5 exactly for an inside sample at a positive
   * distance and below 0.5 exactly for an outside one; at the full radius it saturates to
   * 1 (inside) or 0 (outside).
   */
  lemma SignedValueRange(d: Distance, root: real)
    requires ValidDistance(d) && root >= 0.0 && root * root == d.squareDist as real
    ensures 0.0 <= SignedValue(d, root) <= 1.0
    ensures d.inside ==> (SignedValue(d, root) > 0.5 <==> d.squareDist > 0)
    ensures !d.inside ==> (SignedValue(d, root) < 0.5 <==> d.squareDist > 0)
    ensures d.squareDist == d.maxDistance * d.maxDistance ==>
      SignedValue(d, root) == if d.inside then 1.0 else 0.0
  {
    RootBounds(d, root);
    var m := d.maxDistance as real;
    ScaleByPositive(1.0, root, m);
    ScaleByPositive(0.0, root, m);
  }

  // ---------------------------------------------------------------------------------------
  // Quantisation: alpha = (int) (value * 255)

  /** The integer square root, rounded down. */
  function ISqrt(n: nat): (r: nat)
    ensures r * r <= n < (r + 1) * (r + 1)
  {
    if n == 0 then 0
    else
      var s := ISqrt(n - 1);
      if (s + 1) * (s + 1) <= n then
        assert (s + 2) * (s + 2) == (s + 1) * (s + 1) + 2 * s + 3;
        s + 1
      else s
  }

  /** The integer square root, rounded up. */
  function CeilSqrt(n: nat): (r: nat)
    ensures n <= r * r && (r == 0 || (r - 1) * (r - 1) < n)
  {
    var s := ISqrt(n);
    if s * s == n then s else s + 1
  }

  /** A root r of n (one with (r - 1)^2 < n) is at most k when n <= k * k. */
  lemma RootAtMost(r: nat, k: nat, n: nat)
    requires n <= k * k && (r == 0 || (r - 1) * (r - 1) < n)
    ensures r <= k
  {
    if r >= k + 1 {
      MulMonotonic(k, r - 1, r - 1);
      MulMonotonic(k, r - 1, k);
    }
  }

  lemma DivisionBounds(a: int, b: int, k: int)
    requires b >= 1 && 0 <= a <= k * b
    ensures 0 <= a / b <= k
  {
    var q := a / b;
    assert q * b + a % b == a;
    if q >= k + 1 {
      MulMonotonic(k + 1, q, b);
    }
  }

  lemma DivisionMonotonic(a: int, b: int, k: int)
    requires k >= 1 && 0 <= a <= b
    ensures a / k <= b / k
  {
    var qa, qb := a / k, b / k;
    assert qa * k + a % k == a;
    assert qb * k + b % k == b;
    if qa >= qb + 1 {
      MulMonotonic(qb + 1, qa, k);
    }
  }

  lemma ScaledSquare(sq: nat, m: nat)
    requires sq <= m * m
    ensures 65025 * sq <= (255 * m) * (255 * m)
  {
    assert (255 * m) * (255 * m) == 65025 * (m * m);
  }

  lemma ISqrtAtMost(n: nat, k: nat)
    requires n <= k * k
    ensures ISqrt(n) <= k
  {
    var s := ISqrt(n);
    if s >= k + 1 {
      MulMonotonic(k + 1, s, s);
      MulMonotonic(k, k + 1, k);
    }
  }

  lemma CeilSqrtAtMost(n: nat, k: nat)
    requires n <= k * k
    ensures CeilSqrt(n) <= k
  {
    var s := ISqrt(n);
    ISqrtAtMost(n, k);
    if s * s != n && s >= k {
      MulMonotonic(k, s, s);
      MulMonotonic(k, s, k);
    }
  }

  /** The numerators of Alpha lie in [0, 255 * 2m]. */
  lemma AlphaNumerators(d: Distance)
    requires ValidDistance(d)
    ensures var m, n := d.maxDistance, 65025 * d.squareDist;
      && 0 <= 255 * m + ISqrt(n) <= 255 * (2 * m)
      && 0 <= 255 * m - CeilSqrt(n) <= 255 * (2 * m)
  {
    var m, n := d.maxDistance, 65025 * d.squareDist;
    ScaledSquare(d.squareDist, m);
    ISqrtAtMost(n, 255 * m);
    CeilSqrtAtMost(n, 255 * m);
  }

  /**
   * The alpha byte of a distance value: floor(255 * value), computed exactly. With
   * t = 255 * root the square root of 65025 * squareDist, 255 * value is
   * (255 * maxDistance +- t) / (2 * maxDistance).
   */
  function Alpha(d: Distance): (a: int)
    requires ValidDistance(d)
    ensures 0 <= a <= 255
  {
    var m, n := d.maxDistance, 65025 * d.squareDist;
    AlphaNumerators(d);
    var num := if d.inside then 255 * m + ISqrt(n) else 255 * m - CeilSqrt(n);
    DivisionBounds(num, 2 * m, 255);
    num / (2 * m)
  }

  /** Among non-negative reals, squares order like their roots. */
  lemma RootOrder(a: real, b: real)
    requires a >= 0.0 && b >= 0.0
    ensures a * a <= b * b ==> a <= b
    ensures a * a < b * b ==> a < b
  {
    if a > b {
      RealSquareMonotonic(b, a);
    } else if a == b {
      assert a * a == b * b;
    }
  }

  lemma CastSquare(a: int)
    ensures (a * a) as real == a as real * a as real
  {
  }

  /** s <= t < s + 1 for the real root t of n when s is its integer floor root. */
  lemma FloorRootBounds(n: nat, s: nat, t: real)
    requires t >= 0.0 && t * t == n as real && s * s <= n < (s + 1) * (s + 1)
    ensures s as real <= t < (s + 1) as real
  {
    var sr, sr1 := s as real, (s + 1) as real;
    CastSquare(s);
    CastSquare(s + 1);
    RootOrder(sr, t);
    RootOrder(t, sr1);
  }

  /** c - 1 < t <= c for the real root t of n when c is its ceiling root. */
  lemma CeilRootBounds(n: nat, c: nat, t: real)
    requires t >= 0.0 && t * t == n as real && n <= c * c && (c == 0 || (c - 1) * (c - 1) < n)
    ensures (c - 1) as real < t <= c as real
  {
    var cr := c as real;
    assert (c * c) as real == cr * cr;
    RootOrder(t, cr);
    if c >= 1 {
      var cr1 := (c - 1) as real;
      assert ((c - 1) * (c - 1)) as real == cr1 * cr1;
      RootOrder(cr1, t);
    }
  }

  /** For mm > 0: q <= x / mm <==> q * mm <= x, and likewise for <. */
  lemma ScaleByPositive(q: real, x: real, mm: real)
    requires mm > 0.0
    ensures q <= x / mm <==> q * mm <= x
    ensures q < x / mm <==> q * mm < x
  {
    var y := x / mm;
    assert y * mm == x;
    assert q * mm - y * mm == (q - y) * mm;
    if q < y {
      assert (y - q) * mm > 0.0;
    } else if q > y {
      assert (q - y) * mm > 0.0;
    }
  }

  /** a = num / k and num <= x < num + 1 give a <= x / k < a + 1. */
  lemma TruncatedQuotient(num: int, k: int, x: real)
    requires k >= 1 && num as real <= x < (num + 1) as real
    ensures (num / k) as real <= x / k as real < (num / k + 1) as real
  {
    var q := num / k;
    QuotientBounds(num, k, q);
    var kr := k as real;
    assert (q * k) as real == q as real * kr;
    assert ((q + 1) * k) as real == (q + 1) as real * kr;
    ScaleByPositive(q as real, x, kr);
    ScaleByPositive((q + 1) as real, x, kr);
  }

  /** 255 * value = (255 * m +- 255 * root) / (2 * m) when root <= m. */
  lemma ScaledValue(d: Distance, root: real)
    requires d.maxDistance >= 1 && 0.0 <= root <= d.maxDistance as real
    ensures var mr := d.maxDistance as real;
      255.0 * SignedValue(d, root)
        == (if d.inside then 255.0 * mr + 255.0 * root else 255.0 * mr - 255.0 * root) / (2.0 * mr)
  {
    var mr := d.maxDistance as real;
    var u := root / mr;
    assert u * mr == root;
    ScaleByPositive(1.0, root, mr);
    assert RMin(1.0, u) == u;
    var y := 255.0 * SignedValue(d, root);
    var x := if d.inside then 255.0 * mr + 255.0 * root else 255.0 * mr - 255.0 * root;
    assert y * (2.0 * mr) == x by {
      if d.inside {
        assert y == 127.5 + 127.5 * u;
        assert y * (2.0 * mr) == 255.0 * mr + 255.0 * (u * mr);
      } else {
        assert y == 127.5 - 127.5 * u;
        assert y * (2.0 * mr) == 255.0 * mr - 255.0 * (u * mr);
      }
    }
    ScaleByPositive(y, x, 2.0 * mr);
  }

  /**
   * Alpha is the truncation of 255 times the real value: for the real square root of the
   * squared distance, Alpha(d) <= 255 * value < Alpha(d) + 1.
   */
  lemma AlphaIsTruncation(d: Distance, root: real)
    requires ValidDistance(d) && root >= 0.0 && root * root == d.squareDist as real
    ensures Alpha(d) as real <= 255.0 * SignedValue(d, root) < (Alpha(d) + 1) as real
  {
    RootBounds(d, root);
    ScaledValue(d, root);
    var m, n := d.maxDistance, 65025 * d.squareDist;
    var mr := m as real;
    var t := 255.0 * root;
    assert t * t == n as real;
    AlphaNumerators(d);
    if d.inside {
      var s := ISqrt(n);
      FloorRootBounds(n, s, t);
      TruncatedQuotient(255 * m + s, 2 * m, 255.0 * mr + t);
    } else {
      var c := CeilSqrt(n);
      CeilRootBounds(n, c, t);
      TruncatedQuotient(255 * m - c, 2 * m, 255.0 * mr - t);
    }
  }

  /** q = num / k satisfies q * k <= num and num + 1 <= (q + 1) * k. */
  lemma QuotientBounds(num: int, k: int, q: int)
    requires k >= 1 && q == num / k
    ensures q * k <= num && num + 1 <= (q + 1) * k
  {
    assert q * k + num % k == num;
    assert (q + 1) * k == q * k + k;
  }

  /** Division undoes q * k + r for 0 <= r < k. */
  lemma DivideExactly(q: int, r: int, k: int)
    requires 0 <= r < k
    ensures (q * k + r) / k == q
  {
    var n := q * k + r;
    var q' := n / k;
    QuotientBounds(n, k, q');
    if q' >= q + 1 {
      MulMonotonic(q + 1, q', k);
    }
    if q' <= q - 1 {
      MulMonotonic(q' + 1, q, k);
    }
  }

  lemma LeastRootOfSquare(n: nat, k: nat)
    requires n == k * k
    ensures ISqrt(n) == k && CeilSqrt(n) == k
  {
    var s := ISqrt(n);
    ISqrtAtMost(n, k);
    if s < k {
      MulMonotonic(s + 1, k, s + 1);
      MulMonotonic(s + 1, k, k);
    }
  }

  /** Alpha is 255 for a saturated inside sample and 0 for a saturated outside one. */
  lemma AlphaSaturates(d: Distance)
    requires ValidDistance(d) && d.squareDist == d.maxDistance * d.maxDistance
    ensures Alpha(d) == if d.inside then 255 else 0
  {
    var m, n := d.maxDistance, 65025 * d.squareDist;
    assert n == (255 * m) * (255 * m);
    LeastRootOfSquare(n, 255 * m);
    DivideExactly(255, 0, 2 * m);
    DivideExactly(0, 0, 2 * m);
  }

  /** An inside sample never gets an alpha below 127, an outside one never above 127. */
  lemma AlphaSide(d: Distance)
    requires ValidDistance(d)
    ensures d.inside ==> Alpha(d) >= 127
    ensures !d.inside ==> Alpha(d) <= 127
  {
    var m, n := d.maxDistance, 65025 * d.squareDist;
    AlphaNumerators(d);
    var k := 2 * m;
    DivideExactly(127, 0, k);
    DivideExactly(127, k - 1, k);
    if d.inside {
      DivisionMonotonic(127 * k, 255 * m + ISqrt(n), k);
    } else {
      DivisionMonotonic(255 * m - CeilSqrt(n), 127 * k + (k - 1), k);
    }
  }

  // ---------------------------------------------------------------------------------------
  // Packing

  /** The position of the alpha byte in an ARGB pixel. */
  const AlphaShift: bv6 := 24

  /** An output pixel: the alpha byte on top, the fill colour's RGB in the low 24 bits. */
  function Pack(alpha: bv8, color: Pixel): (p: Pixel)
    ensures p & 0xFF_FFFF == color & 0xFF_FFFF
    ensures p >> AlphaShift == alpha as bv32
  {
    ((alpha as bv32) << AlphaShift) | (color & 0xFF_FFFF)
  }

  /** An alpha value in 0 .. 255 as a byte. */
  function AlphaByte(alpha: int): (a: bv8)
    requires 0 <= alpha <= 255
  {
    alpha as bv8
  }

  /**
   * A mask that is uniformly of one class yields the saturated alpha everywhere: 255 when
   * inside, 0 when outside.
   */
  lemma UniformMaskSaturates(g: Grid, ox: nat, oy: nat, downscale: nat, spread: nat, b: bool)
    requires IsRect(g) && downscale >= 1 && spread >= 1
    requires ox < |g| / downscale && oy < Height(g) / downscale
    requires forall i, j :: 0 <= i < |g| && 0 <= j < Height(g) ==> g[i][j] == b
    ensures Alpha(SampleField(g, ox, oy, downscale, spread)) == if b then 255 else 0
  {
    SampleInRange(ox, |g|, downscale);
    SampleInRange(oy, Height(g), downscale);
    var px, py, m := ox * downscale + downscale / 2, oy * downscale + downscale / 2, downscale * spread;
    ClosestIsMinimum(g, px, py, m);
    AlphaSaturates(SampleField(g, ox, oy, downscale, spread));
  }
}
