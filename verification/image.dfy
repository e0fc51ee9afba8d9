/** Border handling and bilinear neighbour selection of the image texture:
    integer pixel coordinates are either clamped to the image or wrapped
    around it, and a colour is blended between four neighbouring pixels. */
module ImageTexture {
  import opened Geometry
  import opened Colors

  datatype Point2i = Point2i(x: int, y: int)

  datatype BorderMode = Clamp | Repeat

  /** C++ integer division by a positive divisor, which truncates toward zero. */
  function TruncDiv(a: int, n: int): int
    requires n > 0
  {
    if a >= 0 then a / n else -((-a) / n)
  }

  /** C++ `%` by a positive divisor: the remainder of the truncating
      division. It has the sign of the dividend and is smaller than the
      divisor in magnitude. */
  function TruncMod(a: int, n: int): (r: int)
    requires n > 0
    ensures a == TruncDiv(a, n) * n + r
    ensures a >= 0 ==> 0 <= r < n
    ensures a < 0 ==> -n < r <= 0
  {
    if a >= 0 then a % n else -((-a) % n)
  }

  /** A non-zero multiple of a positive `n` is at least `n` in magnitude. */
  lemma MultipleMagnitude(d: int, n: int)
    requires n > 0
    ensures d >= 1 ==> d * n >= n
    ensures d <= -1 ==> d * n <= -n
  {
    assert d * n - n == (d - 1) * n;
    assert d * n + n == (d + 1) * n;
  }

  /** Division with remainder is unique: a remainder in `[0, n)` is the
      Euclidean one. */
  lemma {:induction false} RemainderUnique(c: int, n: int, q: int, r: int)
    requires n > 0 && 0 <= r < n && c == q * n + r
    ensures r == c % n && q == c / n
  {
    var q2, r2 := c / n, c % n;
    assert c == q2 * n + r2;
    assert (q - q2) * n == r2 - r;
    MultipleMagnitude(q - q2, n);
  }

  /** `clamp_point`: each coordinate is clamped to `[0, size - 1]`. */
  function ClampPoint(p: Point2i, width: int, height: int): (r: Point2i)
    ensures width >= 1 ==> 0 <= r.x < width
    ensures height >= 1 ==> 0 <= r.y < height
    ensures 0 <= p.x < width ==> r.x == p.x
    ensures 0 <= p.y < height ==> r.y == p.y
    ensures width >= 1 && p.x < 0 ==> r.x == 0
    ensures width >= 1 && p.x >= width ==> r.x == width - 1
    ensures height >= 1 && p.y < 0 ==> r.y == 0
    ensures height >= 1 && p.y >= height ==> r.y == height - 1
  {
    Point2i(MaxInt(0, MinInt(p.x, width - 1)), MaxInt(0, MinInt(p.y, height - 1)))
  }

  /** Clamping is idempotent. */
  lemma ClampIdempotent(p: Point2i, width: int, height: int)
    requires width >= 1 && height >= 1
    ensures ClampPoint(ClampPoint(p, width, height), width, height) == ClampPoint(p, width, height)
  {
  }

  /** One coordinate of `repeat_point`: the C++ remainder, shifted up by the
      size when negative. Whatever the sign of the input, this is the
      mathematical (Euclidean) remainder, so the result lies in `[0, size)`,
      is congruent to the input, and is the input itself when that is in range. */
  function Wrap(c: int, size: int): (r: int)
    requires size > 0
    ensures r == c % size
    ensures 0 <= c < size ==> r == c
  {
    var m := TruncMod(c, size);
    WrapIsRemainder(c, size, m);
    if m < 0 then m + size else m
  }

  lemma {:induction false} WrapIsRemainder(c: int, size: int, m: int)
    requires size > 0 && m == TruncMod(c, size)
    ensures (if m < 0 then m + size else m) == c % size
    ensures 0 <= c < size ==> m == c
  {
    var r := if m < 0 then m + size else m;
    if m < 0 {
      assert c == (TruncDiv(c, size) - 1) * size + r;
      RemainderUnique(c, size, TruncDiv(c, size) - 1, r);
    } else {
      RemainderUnique(c, size, TruncDiv(c, size), r);
    }
    if 0 <= c < size {
      RemainderUnique(c, size, 0, c);
    }
  }

  /** `repeat_point`: both coordinates wrapped into the image. */
  function RepeatPoint(p: Point2i, width: int, height: int): (r: Point2i)
    requires width > 0 && height > 0
    ensures 0 <= r.x < width && 0 <= r.y < height
    ensures r == Point2i(p.x % width, p.y % height)
    ensures 0 <= p.x < width && 0 <= p.y < height ==> r == p
  {
    Point2i(Wrap(p.x, width), Wrap(p.y, height))
  }

  /** Wrapping is periodic: moving a whole image width (or height) does not
      change the wrapped point. */
  lemma {:induction false} RepeatPeriodic(p: Point2i, width: int, height: int, k: int, l: int)
    requires width > 0 && height > 0
    ensures RepeatPoint(Point2i(p.x + k * width, p.y + l * height), width, height) == RepeatPoint(p, width, height)
  {
    RemainderUnique(p.x + k * width, width, p.x / width + k, p.x % width);
    RemainderUnique(p.y + l * height, height, p.y / height + l, p.y % height);
  }

  /** `lin_interpolate`: per channel `a (1 - f) + b f`. */
  function LinInterpolate(a: Color, b: Color, f: real): (c: Color)
    ensures f == 0.0 ==> c == a
    ensures f == 1.0 ==> c == b
    ensures a == b ==> c == a
  {
    Color(a.r * (1.0 - f) + b.r * f, a.g * (1.0 - f) + b.g * f, a.b * (1.0 - f) + b.b * f)
  }

  /** Channel-wise minimum of two colours. */
  function Darker(a: Color, b: Color): Color
  {
    Color(Min(a.r, b.r), Min(a.g, b.g), Min(a.b, b.b))
  }

  /** Channel-wise maximum of two colours. */
  function Brighter(a: Color, b: Color): Color
  {
    Color(Max(a.r, b.r), Max(a.g, b.g), Max(a.b, b.b))
  }

  /** Every channel of `c` lies between the matching channels of `lo` and `hi`. */
  predicate Within(c: Color, lo: Color, hi: Color)
  {
    lo.r <= c.r <= hi.r && lo.g <= c.g <= hi.g && lo.b <= c.b <= hi.b
  }

  /** `k * c`: the colour scaled channel by channel. */
  function Scale(k: real, c: Color): Color
  {
    Color(k * c.r, k * c.g, k * c.b)
  }

  /** For a weight `0 <= f <= 1`, `lin_interpolate` never leaves the range
      its two colours span: each channel of the blend lies between the
      smaller and the larger of that channel in `a` and `b`. */
  lemma {:induction false} LinInterpolateBetween(a: Color, b: Color, f: real)
    requires 0.0 <= f <= 1.0
    ensures Within(LinInterpolate(a, b, f), Darker(a, b), Brighter(a, b))
  {
    var c := LinInterpolate(a, b, f);
    InterpolateBetween(a.r, b.r, f, c.r);
    InterpolateBetween(a.g, b.g, f, c.g);
    InterpolateBetween(a.b, b.b, f, c.b);
  }

  /** Scaling by a non-negative factor keeps a colour within scaled bounds. */
  lemma {:induction false} ScaleWithin(k: real, c: Color, lo: Color, hi: Color)
    requires k >= 0.0 && Within(c, lo, hi)
    ensures Within(Scale(k, c), Scale(k, lo), Scale(k, hi))
  {
    MulMonotone(k, c.r - lo.r, k, hi.r - lo.r);
    assert k * (c.r - lo.r) >= 0.0 && k * (hi.r - c.r) >= 0.0 by {
      MulMonotone(0.0, 0.0, k, c.r - lo.r);
      MulMonotone(0.0, 0.0, k, hi.r - c.r);
    }
    assert k * (c.g - lo.g) >= 0.0 && k * (hi.g - c.g) >= 0.0 by {
      MulMonotone(0.0, 0.0, k, c.g - lo.g);
      MulMonotone(0.0, 0.0, k, hi.g - c.g);
    }
    assert k * (c.b - lo.b) >= 0.0 && k * (hi.b - c.b) >= 0.0 by {
      MulMonotone(0.0, 0.0, k, c.b - lo.b);
      MulMonotone(0.0, 0.0, k, hi.b - c.b);
    }
  }

  /** One channel of the blend lies between the two channels it blends. */
  lemma {:induction false} InterpolateBetween(x: real, y: real, f: real, v: real)
    requires 0.0 <= f <= 1.0 && v == x * (1.0 - f) + y * f
    ensures Min(x, y) <= v <= Max(x, y)
  {
    if x <= y {
      assert v == x + (y - x) * f;
      MulMonotone(0.0, 0.0, y - x, f);
      MulMonotone(y - x, f, y - x, 1.0);
    } else {
      assert v == y + (x - y) * (1.0 - f);
      MulMonotone(0.0, 0.0, x - y, 1.0 - f);
      MulMonotone(x - y, 1.0 - f, x - y, 1.0);
    }
  }

  /** The four pixels around a sample, `p11` at the lower-left corner. */
  datatype Neighbours = Neighbours(p11: Point2i, p12: Point2i, p21: Point2i, p22: Point2i)

  /** The pixel coordinates of a bilinear sample before border handling:
      the texture coordinate with `v` flipped, scaled to the resolution and
      shifted by half a pixel; its floor is the lower-left neighbour and the
      remainder the blend weights, each in `[0, 1)`. */
  function SamplePosition(u: real, v: real, width: int, height: int): (s: (Point2i, real, real))
    ensures 0.0 <= s.1 < 1.0 && 0.0 <= s.2 < 1.0
    ensures s.0.x as real <= u * width as real - 0.5 < s.0.x as real + 1.0
    ensures s.0.y as real <= (1.0 - v) * height as real - 0.5 < s.0.y as real + 1.0
  {
    var px := u * width as real - 0.5;
    var py := (1.0 - v) * height as real - 0.5;
    (Point2i(px.Floor, py.Floor), px - px.Floor as real, py - py.Floor as real)
  }

  /** The neighbour selection of the bilinear branch: the corner and its
      offsets by (0, 1), (1, 0) and (1, 1), all four clamped or all four
      wrapped according to the border mode. */
  function SelectNeighbours(corner: Point2i, border: BorderMode, width: int, height: int): (n: Neighbours)
    requires border == Repeat ==> width > 0 && height > 0
    ensures var raw := [corner, Point2i(corner.x, corner.y + 1),
                        Point2i(corner.x + 1, corner.y), Point2i(corner.x + 1, corner.y + 1)];
            var got := [n.p11, n.p12, n.p21, n.p22];
            forall i :: 0 <= i < 4 ==>
              got[i] == (if border == Clamp then ClampPoint(raw[i], width, height)
                         else RepeatPoint(raw[i], width, height))
    ensures width >= 1 && height >= 1 ==>
              && InImage(n.p11, width, height) && InImage(n.p12, width, height)
              && InImage(n.p21, width, height) && InImage(n.p22, width, height)
  {
    var p11 := corner;
    var p12 := Point2i(corner.x, corner.y + 1);
    var p21 := Point2i(corner.x + 1, corner.y);
    var p22 := Point2i(corner.x + 1, corner.y + 1);
    if border == Clamp then
      Neighbours(ClampPoint(p11, width, height), ClampPoint(p12, width, height),
                 ClampPoint(p21, width, height), ClampPoint(p22, width, height))
    else
      Neighbours(RepeatPoint(p11, width, height), RepeatPoint(p12, width, height),
                 RepeatPoint(p21, width, height), RepeatPoint(p22, width, height))
  }

  /** The pixel lies inside a `width` by `height` image. */
  predicate InImage(p: Point2i, width: int, height: int)
  {
    0 <= p.x < width && 0 <= p.y < height
  }

  /** The bilinear branch of `evaluate`, for an image whose pixel lookup is
      `pixel` (defined inside the image) and an exposure factor: blend the two
      lower and the two upper neighbours along x, then the results along y.
      With a non-negative exposure the result lies, channel by channel,
      between the exposure times the darkest and the exposure times the
      brightest of the four neighbours; four equal neighbours give that
      colour times the exposure; and a sample exactly at the centre of a
      pixel gives that pixel times the exposure. */
  function EvaluateBilinear(pixel: Point2i --> Color, width: int, height: int, exposure: real,
                            border: BorderMode, u: real, v: real): (col: Color)
    requires width >= 1 && height >= 1
    requires forall p :: InImage(p, width, height) ==> pixel.requires(p)
    ensures var (corner, fx, fy) := SamplePosition(u, v, width, height);
            var n := SelectNeighbours(corner, border, width, height);
            var (a, b, c, d) := (pixel(n.p11), pixel(n.p21), pixel(n.p12), pixel(n.p22));
            && (exposure >= 0.0 ==>
                  Within(col, Scale(exposure, Darker(Darker(a, b), Darker(c, d))),
                              Scale(exposure, Brighter(Brighter(a, b), Brighter(c, d)))))
            && (a == b == c == d ==> col == Scale(exposure, a))
            && (fx == 0.0 && fy == 0.0 ==> col == Scale(exposure, a))
  {
    var (corner, fx, fy) := SamplePosition(u, v, width, height);
    var n := SelectNeighbours(corner, border, width, height);
    var (a, b, c, d) := (pixel(n.p11), pixel(n.p21), pixel(n.p12), pixel(n.p22));
    var c1 := LinInterpolate(a, b, fx);
    var c2 := LinInterpolate(c, d, fx);
    var c3 := LinInterpolate(c1, c2, fy);
    BilinearWithin(a, b, c, d, fx, fy, exposure);
    Scale(exposure, c3)
  }

  /** The two-stage blend of four colours stays within their channel-wise
      range, and so does its scaled value for a non-negative factor. */
  lemma {:induction false} BilinearWithin(a: Color, b: Color, c: Color, d: Color, fx: real, fy: real, k: real)
    requires 0.0 <= fx <= 1.0 && 0.0 <= fy <= 1.0
    ensures var c3 := LinInterpolate(LinInterpolate(a, b, fx), LinInterpolate(c, d, fx), fy);
            k >= 0.0 ==> Within(Scale(k, c3), Scale(k, Darker(Darker(a, b), Darker(c, d))),
                                              Scale(k, Brighter(Brighter(a, b), Brighter(c, d))))
  {
    var c1, c2 := LinInterpolate(a, b, fx), LinInterpolate(c, d, fx);
    var c3 := LinInterpolate(c1, c2, fy);
    LinInterpolateBetween(a, b, fx);
    LinInterpolateBetween(c, d, fx);
    LinInterpolateBetween(c1, c2, fy);
    assert Within(c3, Darker(Darker(a, b), Darker(c, d)), Brighter(Brighter(a, b), Brighter(c, d)));
    if k >= 0.0 {
      ScaleWithin(k, c3, Darker(Darker(a, b), Darker(c, d)), Brighter(Brighter(a, b), Brighter(c, d)));
    }
  }
}
