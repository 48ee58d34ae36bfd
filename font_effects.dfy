/**
 * org.newdawn.slick.font.effects.DistanceFieldEffect: the effect's parameters with their
 * clamping setters, the name-based property list, the per-sample search and the whole
 * image transform.
 *
 * Images are modelled as `array2<Pixel>` indexed [x, y] with `Length0` the width and
 * `Length1` the height; the mask is the source's boolean[width][height] as `array2<bool>`.
 */
module FontEffects {
  import opened SignedDistance
  import opened Wrappers

  /** The effect's parameters as a value: fill colour (ARGB), spread and downscale. */
  datatype Params = Params(color: Pixel, spread: int, downscale: int)

  predicate ValidParams(p: Params) { p.spread >= 1 && p.downscale >= 1 }

  /** java.awt.Color.white as getRGB returns it. */
  const White: Pixel := 0xFFFF_FFFF

  /** The parameters of a newly created effect: white, spread 4, downscale 8. */
  function Defaults(): (p: Params)
    ensures ValidParams(p)
  {
    Params(White, 4, 8)
  }

  /** Math.max(1, v): the setters' clamp. */
  function ClampToOne(v: int): (r: int)
    ensures r >= 1
    ensures v >= 1 ==> r == v
    ensures v < 1 ==> r == 1
  {
    if v < 1 then 1 else v
  }

  // ---------------------------------------------------------------------------------------
  // The property list exchanged with configuration tools

  /** An entry of the property list: a colour or an integer with its description. */
  datatype Value =
    | ColorValue(name: string, color: Pixel)
    | IntValue(name: string, n: int, description: string)

  /** The list getValues builds from the parameters. */
  function ValuesOf(p: Params): (vs: seq<Value>)
    ensures |vs| == 3
  {
    [ ColorValue("Color", p.color),
      IntValue("Downscale", p.downscale, "Downscale (even number recommended)"),
      IntValue("Spread", p.spread, "Spread (in pixels)") ]
  }

  /**
   * What one entry does to the parameters: a known name calls its setter, an unknown
   * name is skipped, and a known name holding the wrong kind of object is a failed cast
   * (None).
   */
  function ApplyValue(p: Params, v: Value): (r: Option<Params>)
    ensures ValidParams(p) && r.Some? ==> ValidParams(r.value)
  {
    if v.name == "Color" then
      (if v.ColorValue? then Some(p.(color := v.color)) else None)
    else if v.name == "Downscale" then
      (if v.IntValue? then Some(p.(downscale := ClampToOne(v.n))) else None)
    else if v.name == "Spread" then
      (if v.IntValue? then Some(p.(spread := ClampToOne(v.n))) else None)
    else Some(p)
  }

  /**
   * setValues over a whole list: the parameters after applying the entries in order, and
   * whether every cast succeeded (false: the parameters reached before the failing entry).
   */
  function ApplyValues(p: Params, vs: seq<Value>): (r: (Params, bool))
    ensures ValidParams(p) ==> ValidParams(r.0)
    decreases |vs|
  {
    if vs == [] then (p, true)
    else match ApplyValue(p, vs[0])
      case None => (p, false)
      case Some(p') => ApplyValues(p', vs[1..])
  }

  /** Entries whose names are none of the three are ignored. */
  lemma {:induction false} UnknownNamesIgnored(p: Params, vs: seq<Value>)
    requires forall k :: 0 <= k < |vs| ==> vs[k].name !in ["Color", "Downscale", "Spread"]
    ensures ApplyValues(p, vs) == (p, true)
    decreases |vs|
  {
    if vs != [] {
      assert vs[0].name !in ["Color", "Downscale", "Spread"];
      UnknownNamesIgnored(p, vs[1..]);
    }
  }

  /**
   * Feeding getValues' list to setValues rebuilds valid parameters from any starting
   * parameters: the list carries every value.
   */
  lemma GetThenSetIsIdentity(p: Params)
    requires ValidParams(p)
    ensures forall q :: ApplyValues(q, ValuesOf(p)) == (p, true)
  {
    var vs := ValuesOf(p);
    assert "Downscale" != "Color" && "Spread" != "Color" && "Spread" != "Downscale";
    assert vs[2..][1..] == [];
    assert vs[1..][1..] == vs[2..];
    forall q
      ensures ApplyValues(q, vs) == (p, true)
    {
      var q1 := q.(color := p.color);
      var q2 := q1.(downscale := p.downscale);
      assert ApplyValue(q, vs[0]) == Some(q1);
      assert ApplyValue(q1, vs[1]) == Some(q2);
      assert ApplyValue(q2, vs[2]) == Some(p);
      assert ApplyValues(q2, vs[2..]) == (p, true);
      assert ApplyValues(q1, vs[1..]) == (p, true);
    }
  }

  /** A setter entry whose value is below 1 stores 1. */
  lemma SetValueClamps(p: Params, name: string, n: int)
    requires name == "Downscale" || name == "Spread"
    requires n < 1
    ensures var r := ApplyValues(p, [IntValue(name, n, "")]);
      r.1 && (if name == "Downscale" then r.0.downscale else r.0.spread) == 1
  {
    assert [IntValue(name, n, "")][1..] == [];
  }

  // ---------------------------------------------------------------------------------------
  // Masks as values

  /** The mask of an image: each pixel's inside test. */
  function MaskOf(img: array2<Pixel>): (g: Grid)
    reads img
    ensures |g| == img.Length0 && IsRect(g)
    ensures |g| > 0 ==> Height(g) == img.Length1
    ensures forall i, j :: 0 <= i < img.Length0 && 0 <= j < img.Length1 ==> g[i][j] == Inside(img[i, j])
  {
    seq(img.Length0, i requires 0 <= i < img.Length0 reads img =>
      seq(img.Length1, j requires 0 <= j < img.Length1 reads img => Inside(img[i, j])))
  }

  /** The current contents of a boolean mask. */
  function Snapshot(bitmap: array2<bool>): (g: Grid)
    reads bitmap
    ensures |g| == bitmap.Length0 && IsRect(g)
    ensures |g| > 0 ==> Height(g) == bitmap.Length1
    ensures forall i, j :: 0 <= i < bitmap.Length0 && 0 <= j < bitmap.Length1 ==> g[i][j] == bitmap[i, j]
  {
    seq(bitmap.Length0, i requires 0 <= i < bitmap.Length0 reads bitmap =>
      seq(bitmap.Length1, j requires 0 <= j < bitmap.Length1 reads bitmap => bitmap[i, j]))
  }

  lemma GridsEqual(g: Grid, h: Grid)
    requires IsRect(g) && IsRect(h) && |g| == |h| && (|g| > 0 ==> Height(g) == Height(h))
    requires forall i, j :: 0 <= i < |g| && 0 <= j < Height(g) ==> g[i][j] == h[i][j]
    ensures g == h
  {
    forall i | 0 <= i < |g| ensures g[i] == h[i] {
      assert |g[i]| == |h[i]|;
    }
  }

  // ---------------------------------------------------------------------------------------
  // The effect

  class DistanceFieldEffect {
    var color: Pixel
    var spread: int
    var downscale: int

    ghost predicate Valid()
      reads this
    {
      spread >= 1 && downscale >= 1
    }

    function Current(): Params
      reads this
    {
      Params(color, spread, downscale)
    }

    constructor ()
      ensures Valid() && Current() == Defaults()
    {
      color := White;
      spread := 4;
      downscale := 8;
    }

    function GetColor(): Pixel
      reads this
    {
      color
    }

    function GetSpread(): (s: int)
      reads this
      requires Valid()
      ensures s >= 1
    {
      spread
    }

    function GetDownscale(): (d: int)
      reads this
      requires Valid()
      ensures d >= 1
    {
      downscale
    }

    method SetColor(c: Pixel)
      modifies this
      ensures Current() == old(Current()).(color := c)
    {
      color := c;
    }

    method SetSpread(v: int)
      requires Valid()
      modifies this
      ensures Valid()
      ensures Current() == old(Current()).(spread := ClampToOne(v))
    {
      spread := ClampToOne(v);
    }

    method SetDownscale(v: int)
      requires Valid()
      modifies this
      ensures Valid()
      ensures Current() == old(Current()).(downscale := ClampToOne(v))
    {
      downscale := ClampToOne(v);
    }

    function GetValues(): (vs: seq<Value>)
      reads this
      requires Valid()
      ensures forall q :: ApplyValues(q, vs) == (Current(), true)
    {
      GetThenSetIsIdentity(Current());
      ValuesOf(Current())
    }

    /**
     * setValues: applies the entries in order through the setters. A known name whose
     * object has the wrong type throws a ClassCastException in the source; here the loop
     * stops there and `ok` is false, with the earlier entries already applied.
     */
    method SetValues(values: seq<Value>) returns (ok: bool)
      requires Valid()
      modifies this
      ensures Valid()
      ensures (Current(), ok) == ApplyValues(old(Current()), values)
    {
      var k := 0;
      while k < |values|
        invariant 0 <= k <= |values| && Valid()
        invariant ApplyValues(old(Current()), values) == ApplyValues(Current(), values[k..])
      {
        var value := values[k];
        assert values[k..][1..] == values[k + 1..];
        if value.name == "Color" {
          if !value.ColorValue? { return false; }
          SetColor(value.color);
        } else if value.name == "Downscale" {
          if !value.IntValue? { return false; }
          SetDownscale(value.n);
        } else if value.name == "Spread" {
          if !value.IntValue? { return false; }
          SetSpread(value.n);
        }
        k := k + 1;
      }
      return true;
    }

    /**
     * findSignedDistance: scans the clamped window of radius downscale * spread around the
     * sample for the nearest cell of the other class. The source's float result is
     * returned as the exact Distance (sample class, squared distance, radius).
     */
    method FindSignedDistance(pointX: int, pointY: int, bitmap: array2<bool>) returns (d: Distance)
      requires Valid()
      requires 0 <= pointX < bitmap.Length0 && 0 <= pointY < bitmap.Length1
      ensures d.inside == bitmap[pointX, pointY]
      ensures d.maxDistance == downscale * spread
      ensures d.squareDist == Closest(Snapshot(bitmap), pointX, pointY, downscale * spread)
    {
      var width := bitmap.Length0;
      var height := bitmap.Length1;
      var base := bitmap[pointX, pointY];

      var maxDistance := downscale * spread;
      ProductIsPositive(downscale, spread);
      var windowX := Window(pointX, maxDistance, width);
      var windowY := Window(pointY, maxDistance, height);
      var startX, endX := windowX.0, windowX.1;
      var startY, endY := windowY.0, windowY.1;

      var squareRadius := maxDistance * maxDistance;
      var closestSquareDist := squareRadius;
      ghost var g := Snapshot(bitmap);

      var x := startX;
      while x <= endX
        invariant startX <= x <= endX + 1
        invariant closestSquareDist <= squareRadius
        invariant closestSquareDist == squareRadius
          || exists i, j :: 0 <= i < width && 0 <= j < height
               && Cost(g, base, pointX, pointY, squareRadius, i, j) == closestSquareDist
        invariant forall i, j :: startX <= i < x && startY <= j <= endY ==>
          closestSquareDist <= Cost(g, base, pointX, pointY, squareRadius, i, j)
      {
        var y := startY;
        while y <= endY
          invariant startY <= y <= endY + 1
          invariant closestSquareDist <= squareRadius
          invariant closestSquareDist == squareRadius
            || exists i, j :: 0 <= i < width && 0 <= j < height
                 && Cost(g, base, pointX, pointY, squareRadius, i, j) == closestSquareDist
          invariant forall i, j :: startX <= i < x && startY <= j <= endY ==>
            closestSquareDist <= Cost(g, base, pointX, pointY, squareRadius, i, j)
          invariant forall j :: startY <= j < y ==>
            closestSquareDist <= Cost(g, base, pointX, pointY, squareRadius, x, j)
        {
          var sqDist := SquareDist(pointX, pointY, x, y);
          if sqDist <= squareRadius {
            if base != bitmap[x, y] && sqDist < closestSquareDist {
              closestSquareDist := sqDist;
              assert Cost(g, base, pointX, pointY, squareRadius, x, y) == closestSquareDist;
            }
          }
          y := y + 1;
        }
        x := x + 1;
      }

      // Cells outside the window are beyond the radius, so they cost the full radius.
      forall i, j | 0 <= i < width && 0 <= j < height
        ensures closestSquareDist <= Cost(g, base, pointX, pointY, squareRadius, i, j)
      {
        if !(startX <= i <= endX && startY <= j <= endY) {
          WindowSpan(pointX, maxDistance, width, i);
          WindowSpan(pointY, maxDistance, height, j);
          if SquareDist(pointX, pointY, i, j) <= squareRadius {
            DiskInBox(pointX, pointY, i, j, maxDistance);
          }
        }
      }
      assert IsNearest(g, base, pointX, pointY, squareRadius, closestSquareDist);
      ClosestIsNearest(g, pointX, pointY, maxDistance);
      NearestIsUnique(g, base, pointX, pointY, squareRadius,
                      closestSquareDist, Closest(g, pointX, pointY, maxDistance));
      d := Distance(base, closestSquareDist, maxDistance);
    }

    /**
     * process: the mask of the image, one distance per downscale x downscale block,
     * sampled at the block's centre, then each distance as the alpha of the fill colour.
     * An image smaller than one block in either direction gives a zero output size, for
     * which the source's new BufferedImage throws IllegalArgumentException (None).
     */
    method Process(img: array2<Pixel>) returns (out: Option<array2<Pixel>>)
      requires Valid()
      ensures out.None? <==> img.Length0 / downscale == 0 || img.Length1 / downscale == 0
      ensures out.Some? ==> fresh(out.value)
      ensures out.Some? ==> out.value.Length0 == img.Length0 / downscale && out.value.Length1 == img.Length1 / downscale
      ensures out.Some? ==> forall x, y :: 0 <= x < out.value.Length0 && 0 <= y < out.value.Length1 ==>
        out.value[x, y] == Pack(AlphaByte(Alpha(SampleField(MaskOf(img), x, y, downscale, spread))), color)
    {
      var outWidth := img.Length0 / downscale;
      var outHeight := img.Length1 / downscale;
      if outWidth == 0 || outHeight == 0 {
        return None;
      }
      var bitmap := Threshold(img);
      var distances := SampleDistances(bitmap);
      var outImage := Colorize(distances);
      return Some(outImage);
    }

    /** The second pass of process: findSignedDistance at the centre of every block. */
    method SampleDistances(bitmap: array2<bool>) returns (distances: array2<Distance>)
      requires Valid()
      ensures fresh(distances)
      ensures distances.Length0 == bitmap.Length0 / downscale
      ensures distances.Length1 == bitmap.Length1 / downscale
      ensures forall x, y :: 0 <= x < distances.Length0 && 0 <= y < distances.Length1 ==>
        distances[x, y] == SampleField(Snapshot(bitmap), x, y, downscale, spread)
    {
      var outWidth := bitmap.Length0 / downscale;
      var outHeight := bitmap.Length1 / downscale;
      distances := new Distance[outWidth, outHeight];
      ghost var mask := Snapshot(bitmap);
      for x := 0 to outWidth
        modifies distances
        invariant forall i, j :: 0 <= i < x && 0 <= j < outHeight ==>
          distances[i, j] == SampleField(mask, i, j, downscale, spread)
      {
        SampleColumn(bitmap, distances, x);
      }
    }

    /** The inner loop of the second pass, over column x of the output. */
    method SampleColumn(bitmap: array2<bool>, distances: array2<Distance>, x: int)
      requires Valid() && bitmap as object != distances
      requires distances.Length0 == bitmap.Length0 / downscale && distances.Length1 == bitmap.Length1 / downscale
      requires 0 <= x < distances.Length0
      modifies distances
      ensures forall i, j :: 0 <= i < distances.Length0 && 0 <= j < distances.Length1 && i != x ==>
        distances[i, j] == old(distances[i, j])
      ensures forall j :: 0 <= j < distances.Length1 ==>
        distances[x, j] == SampleField(Snapshot(bitmap), x, j, downscale, spread)
    {
      ghost var mask := Snapshot(bitmap);
      for y := 0 to distances.Length1
        invariant forall i, j :: 0 <= i < distances.Length0 && 0 <= j < distances.Length1 && i != x ==>
          distances[i, j] == old(distances[i, j])
        invariant forall j :: 0 <= j < y ==> distances[x, j] == SampleField(mask, x, j, downscale, spread)
      {
        SampleInRange(x, bitmap.Length0, downscale);
        SampleInRange(y, bitmap.Length1, downscale);
        distances[x, y] := FindSignedDistance(x * downscale + downscale / 2, y * downscale + downscale / 2, bitmap);
      }
    }

    /** The third pass of process: the alpha of each distance over the colour's RGB. */
    method Colorize(distances: array2<Distance>) returns (out: array2<Pixel>)
      requires forall x, y :: 0 <= x < distances.Length0 && 0 <= y < distances.Length1 ==>
        ValidDistance(distances[x, y])
      ensures fresh(out)
      ensures out.Length0 == distances.Length0 && out.Length1 == distances.Length1
      ensures forall x, y :: 0 <= x < out.Length0 && 0 <= y < out.Length1 ==>
        out[x, y] == Pack(AlphaByte(Alpha(distances[x, y])), color)
    {
      out := new Pixel[distances.Length0, distances.Length1];
      for x := 0 to distances.Length0
        modifies out
        invariant forall i, j :: 0 <= i < x && 0 <= j < distances.Length1 ==>
          out[i, j] == Pack(AlphaByte(Alpha(distances[i, j])), color)
      {
        ColorizeColumn(distances, out, x);
      }
    }

    /** The inner loop of the third pass, over column x. */
    method ColorizeColumn(distances: array2<Distance>, out: array2<Pixel>, x: int)
      requires 0 <= x < distances.Length0 == out.Length0 && distances.Length1 == out.Length1
      requires distances as object != out
      requires forall y :: 0 <= y < distances.Length1 ==> ValidDistance(distances[x, y])
      modifies out
      ensures forall i, j :: 0 <= i < out.Length0 && 0 <= j < out.Length1 && i != x ==> out[i, j] == old(out[i, j])
      ensures forall j :: 0 <= j < out.Length1 ==> out[x, j] == Pack(AlphaByte(Alpha(distances[x, j])), color)
    {
      for y := 0 to distances.Length1
        invariant forall i, j :: 0 <= i < out.Length0 && 0 <= j < out.Length1 && i != x ==> out[i, j] == old(out[i, j])
        invariant forall j :: 0 <= j < y ==> out[x, j] == Pack(AlphaByte(Alpha(distances[x, j])), color)
      {
        out[x, y] := Pack(AlphaByte(Alpha(distances[x, y])), color);
      }
    }
  }

  /** The first pass of process: the inside test of every pixel. */
  method Threshold(img: array2<Pixel>) returns (bitmap: array2<bool>)
    ensures fresh(bitmap)
    ensures bitmap.Length0 == img.Length0 && bitmap.Length1 == img.Length1
    ensures Snapshot(bitmap) == MaskOf(img)
  {
    bitmap := new bool[img.Length0, img.Length1];
    for x := 0 to img.Length0
      modifies bitmap
      invariant forall i, j :: 0 <= i < x && 0 <= j < img.Length1 ==> bitmap[i, j] == Inside(img[i, j])
    {
      for y := 0 to img.Length1
        modifies bitmap
        invariant forall i, j :: 0 <= i < x && 0 <= j < img.Length1 ==> bitmap[i, j] == Inside(img[i, j])
        invariant forall j :: 0 <= j < y ==> bitmap[x, j] == Inside(img[x, j])
      {
        bitmap[x, y] := Inside(img[x, y]);
      }
    }
    GridsEqual(Snapshot(bitmap), MaskOf(img));
  }
}
