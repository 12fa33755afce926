/** glworker.cpp: splitting the screen into regions leaves no seams, and what a region's pixel comes to. */
module TextureTheorems {
  import opened TextureMap

  type Point = (real, real)

  // ---- The vertex shader ----

  /** A vector times a matrix whose columns are stored one after the other. */
  function TimesMatrix(v: Point, m: seq<real>): Point
    requires |m| == 4
  {
    (v.0 * m[0] + v.1 * m[1], v.0 * m[2] + v.1 * m[3])
  }

  /** The texture coordinates that the vertex shader gives a vertex. */
  function TexCoord(source: Source, v: Point): Point
    requires |source.crop| == 4 && |source.matrix| == 4
  {
    var t := TimesMatrix(v, source.matrix);
    (source.crop[0] + t.0 * (source.crop[2] - source.crop[0]), source.crop[1] + t.1 * (source.crop[3] - source.crop[1]))
  }

  /** One coordinate of a vertex, through uViewport to clip space and by glViewport to the window. */
  function Window(low: real, high: real, size: nat, v: real): real
    requires size > 0
  {
    var scaled := low / size as real + v * ((high - low) / size as real);
    var clip := scaled * 2.0 - 1.0;
    (clip + 1.0) / 2.0 * size as real
  }

  /** How much each of the triangle's three vertices counts at a fragment. */
  datatype Weights = Weights(w0: real, w1: real, w2: real)

  ghost predicate IsWeights(w: Weights) {
    w.w0 + w.w1 + w.w2 == 1.0
  }

  ghost predicate InTriangle(w: Weights) {
    IsWeights(w) && w.w0 >= 0.0 && w.w1 >= 0.0 && w.w2 >= 0.0
  }

  function Mix(w: Weights, a: real, b: real, c: real): real {
    w.w0 * a + w.w1 * b + w.w2 * c
  }

  const V0: Point := (0.0, 0.0)
  const V1: Point := (0.0, 2.0)
  const V2: Point := (2.0, 0.0)

  /** Where a fragment of the region's triangle is. */
  function FragmentAt(bounds: Rect, width: nat, height: nat, w: Weights): Point
    requires width > 0 && height > 0
  {
    (Mix(w, Window(bounds.left, bounds.right, width, V0.0), Window(bounds.left, bounds.right, width, V1.0),
         Window(bounds.left, bounds.right, width, V2.0)),
     Mix(w, Window(bounds.top, bounds.bottom, height, V0.1), Window(bounds.top, bounds.bottom, height, V1.1),
         Window(bounds.top, bounds.bottom, height, V2.1)))
  }

  /** The texture coordinates that reach it. */
  function FragmentCoord(source: Source, w: Weights): Point
    requires |source.crop| == 4 && |source.matrix| == 4
  {
    var a, b, c := TexCoord(source, V0), TexCoord(source, V1), TexCoord(source, V2);
    (Mix(w, a.0, b.0, c.0), Mix(w, a.1, b.1, c.1))
  }

  // ---- No seams ----

  function Between(low: real, high: real, v: real): real {
    low + v * (high - low)
  }

  lemma Quotient(x: real, s: real, q: real)
    requires s != 0.0 && q * s == x
    ensures x / s == q
  {
  }

  lemma WindowIsBetween(low: real, high: real, size: nat, v: real)
    requires size > 0
    ensures Window(low, high, size, v) == Between(low, high, v)
  {
    var a, b, s := low / size as real, (high - low) / size as real, size as real;
    assert a * s == low && b * s == high - low;
    calc {
      Window(low, high, size, v);
      (a + v * b) * s;
      a * s + v * (b * s);
    }
  }

  lemma MixFirst(w: Weights, low: real, high: real)
    requires IsWeights(w)
    ensures Mix(w, Between(low, high, 0.0), Between(low, high, 0.0), Between(low, high, 2.0))
        == Between(low, high, 2.0 * w.w2)
    ensures Mix(w, Between(low, high, 0.0), Between(low, high, 2.0), Between(low, high, 0.0))
        == Between(low, high, 2.0 * w.w1)
  {
    assert w.w0 * low + w.w1 * low + w.w2 * low == low by {
      assert (w.w0 + w.w1 + w.w2) * low == low;
    }
    assert w.w2 * (2.0 * (high - low)) == 2.0 * w.w2 * (high - low);
    assert w.w1 * (2.0 * (high - low)) == 2.0 * w.w1 * (high - low);
  }

  lemma FragmentIsBetween(bounds: Rect, width: nat, height: nat, w: Weights)
    requires width > 0 && height > 0 && IsWeights(w)
    ensures FragmentAt(bounds, width, height, w)
         == (Between(bounds.left, bounds.right, 2.0 * w.w2), Between(bounds.top, bounds.bottom, 2.0 * w.w1))
  {
    WindowIsBetween(bounds.left, bounds.right, width, 0.0);
    WindowIsBetween(bounds.left, bounds.right, width, 2.0);
    WindowIsBetween(bounds.top, bounds.bottom, height, 0.0);
    WindowIsBetween(bounds.top, bounds.bottom, height, 2.0);
    MixFirst(w, bounds.left, bounds.right);
    MixFirst(w, bounds.top, bounds.bottom);
    hide Window, Between, Mix;
  }

  lemma CoordIsBetween(source: Source, w: Weights)
    requires IsWeights(w) && |source.crop| == 4 && (source.matrix == Identity || source.matrix == SwapXY)
    ensures FragmentCoord(source, w)
         == var v := if source.matrix == Identity then (2.0 * w.w2, 2.0 * w.w1) else (2.0 * w.w1, 2.0 * w.w2);
            (Between(source.crop[0], source.crop[2], v.0), Between(source.crop[1], source.crop[3], v.1))
  {
    MixFirst(w, source.crop[0], source.crop[2]);
    MixFirst(w, source.crop[1], source.crop[3]);
    MatrixTimes();
    assert Identity[0] != SwapXY[0];
    CoordBetween(source, V0);
    CoordBetween(source, V1);
    CoordBetween(source, V2);
    hide Mix, TimesMatrix, Between, TexCoord, Identity, SwapXY;
  }

  lemma CoordBetween(source: Source, v: Point)
    requires |source.crop| == 4 && |source.matrix| == 4
    ensures TexCoord(source, v)
         == var t := TimesMatrix(v, source.matrix);
            (Between(source.crop[0], source.crop[2], t.0), Between(source.crop[1], source.crop[3], t.1))
  {
    var t, c := TimesMatrix(v, source.matrix), source.crop;
    assert TexCoord(source, v).0 == Between(c[0], c[2], t.0);
    assert TexCoord(source, v).1 == Between(c[1], c[3], t.1);
  }

  lemma MatrixTimes()
    ensures TimesMatrix(V0, Identity) == V0 && TimesMatrix(V1, Identity) == V1 && TimesMatrix(V2, Identity) == V2
    ensures TimesMatrix(V0, SwapXY) == V0 && TimesMatrix(V1, SwapXY) == V2 && TimesMatrix(V2, SwapXY) == V1
  {
  }

  lemma PercentBetween(frame: Rect, axis: nat, low: real, high: real, v: real)
    requires axis < 2 && frame.Bound(axis + 2) != frame.Bound(axis)
    ensures Percent(frame, axis, Between(low, high, v))
        == Between(Percent(frame, axis, low), Percent(frame, axis, high), v)
  {
    var f, s := frame.Bound(axis), frame.Bound(axis + 2) - frame.Bound(axis);
    var a, b := Percent(frame, axis, low), Percent(frame, axis, high);
    assert a * s == low - f && b * s == high - f;
    calc {
      Between(a, b, v) * s;
      a * s + v * (b * s - a * s);
      Between(low, high, v) - f;
    }
    Quotient(Between(low, high, v) - f, s, Between(a, b, v));
  }

  lemma AlongBetween(crop: Rect, axis: nat, flip: bool, low: real, high: real, v: real)
    requires axis < 2
    ensures Along(crop, axis, flip, Between(low, high, v))
         == Between(Along(crop, axis, flip, low), Along(crop, axis, flip, high), v)
  {
    var size := crop.Bound(axis + 2) - crop.Bound(axis);
    var l, h := low * size, high * size;
    assert Between(low, high, v) * size == l + v * (h - l);
    var far := crop.Bound(axis + 2);
    assert v * ((far - h) - (far - l)) == -(v * (h - l));
  }

  lemma ShownBetween(layer: Layer, axis: nat, bounds: Rect, v: Point)
    requires Drawable(layer) && axis < 2
    ensures ShownOn(layer, axis, Between(bounds.left, bounds.right, v.0), Between(bounds.top, bounds.bottom, v.1))
         == Between(ShownOn(layer, axis, bounds.left, bounds.top), ShownOn(layer, axis, bounds.right, bounds.bottom),
                    if (axis == 0) == Oriented(layer.transform).swap then v.1 else v.0)
  {
    var o := Oriented(layer.transform);
    if (axis == 0) == o.swap {
      PercentBetween(layer.frame, 1, bounds.top, bounds.bottom, v.1);
      AlongBetween(CropRect(layer), axis, o.Flip(axis), Percent(layer.frame, 1, bounds.top),
                   Percent(layer.frame, 1, bounds.bottom), v.1);
    } else {
      PercentBetween(layer.frame, 0, bounds.left, bounds.right, v.0);
      AlongBetween(CropRect(layer), axis, o.Flip(axis), Percent(layer.frame, 0, bounds.left),
                   Percent(layer.frame, 0, bounds.right), v.0);
    }
    hide Between, Along, Percent, CropRect, Oriented;
  }

  /** The texture coordinates at a fragment are what the layer shows at that point of the screen: the region that the
      fragment belongs to does not matter. */
  lemma Seamless(source: Source, layer: Layer, index: nat, bounds: Rect, width: nat, height: nat, w: Weights)
    requires Drawable(layer) && IsSourceOf(source, layer, index, bounds)
    requires width > 0 && height > 0 && IsWeights(w)
    ensures var at := FragmentAt(bounds, width, height, w);
            FragmentCoord(source, w) == Shows(layer, at.0, at.1)
  {
    var v := (2.0 * w.w2, 2.0 * w.w1);
    FragmentIsBetween(bounds, width, height, w);
    assert Identity[0] != SwapXY[0];
    CoordIsBetween(source, w);
    ShownBetween(layer, 0, bounds, v);
    ShownBetween(layer, 1, bounds, v);
    hide Between, ShownOn, FragmentAt, FragmentCoord, Drawable, Oriented;
  }

  function WeightsAt(bounds: Rect, x: real, y: real): Weights
    requires bounds.left < bounds.right && bounds.top < bounds.bottom
  {
    var w2 := (x - bounds.left) / (bounds.right - bounds.left) / 2.0;
    var w1 := (y - bounds.top) / (bounds.bottom - bounds.top) / 2.0;
    Weights(1.0 - w1 - w2, w1, w2)
  }

  lemma FractionAlong(low: real, high: real, x: real)
    requires low < high && low <= x <= high
    ensures 0.0 <= (x - low) / (high - low) <= 1.0
    ensures Between(low, high, (x - low) / (high - low)) == x
  {
    var q, s := (x - low) / (high - low), high - low;
    assert q * s == x - low;
    assert q < 0.0 ==> q * s < 0.0;
    assert q > 1.0 ==> q * s > s;
  }

  /** The one triangle covers the whole region: every point of it is a fragment. */
  lemma TriangleCovers(bounds: Rect, width: nat, height: nat, x: real, y: real)
    requires width > 0 && height > 0 && bounds.left <= x <= bounds.right && bounds.top <= y <= bounds.bottom
    requires bounds.left < bounds.right && bounds.top < bounds.bottom
    ensures InTriangle(WeightsAt(bounds, x, y)) && FragmentAt(bounds, width, height, WeightsAt(bounds, x, y)) == (x, y)
  {
    FractionAlong(bounds.left, bounds.right, x);
    FractionAlong(bounds.top, bounds.bottom, y);
    var w := WeightsAt(bounds, x, y);
    FragmentIsBetween(bounds, width, height, w);
    hide FragmentAt, Between;
  }

  /** Where two regions meet, or overlap, they show the same point of the layer. */
  lemma RegionsAgree(layer: Layer, s1: Source, s2: Source, i1: nat, i2: nat, b1: Rect, b2: Rect, width: nat,
                     height: nat, w1: Weights, w2: Weights)
    requires Drawable(layer) && IsSourceOf(s1, layer, i1, b1) && IsSourceOf(s2, layer, i2, b2)
    requires width > 0 && height > 0 && IsWeights(w1) && IsWeights(w2)
    requires FragmentAt(b1, width, height, w1) == FragmentAt(b2, width, height, w2)
    ensures FragmentCoord(s1, w1) == FragmentCoord(s2, w2)
  {
    Seamless(s1, layer, i1, b1, width, height, w1);
    Seamless(s2, layer, i2, b2, width, height, w2);
    hide Shows, FragmentAt, FragmentCoord, IsSourceOf, Drawable;
  }

  // ---- Transforms ----

  /** Where, within the buffer, a point of the frame comes from; both measured from 0 to 1. */
  function Placed(o: Orientation, u: real, v: real): Point {
    var (a, b) := if o.swap then (v, u) else (u, v);
    (if o.flipX then 1.0 - a else a, if o.flipY then 1.0 - b else b)
  }

  lemma AlongIsBetween(crop: Rect, axis: nat, flip: bool, percent: real)
    requires axis < 2
    ensures Along(crop, axis, flip, percent)
         == Between(crop.Bound(axis), crop.Bound(axis + 2), if flip then 1.0 - percent else percent)
  {
    var size := crop.Bound(axis + 2) - crop.Bound(axis);
    assert (1.0 - percent) * size == size - percent * size;
  }

  lemma ShowsPlaced(layer: Layer, x: real, y: real)
    requires Drawable(layer)
    ensures var at := Placed(Oriented(layer.transform), Percent(layer.frame, 0, x), Percent(layer.frame, 1, y));
            var c := CropRect(layer);
            Shows(layer, x, y) == (Between(c.left, c.right, at.0), Between(c.top, c.bottom, at.1))
  {
    var o := Oriented(layer.transform);
    var u, v := Percent(layer.frame, 0, x), Percent(layer.frame, 1, y);
    var a, b := if o.swap then v else u, if o.swap then u else v;
    AlongIsBetween(CropRect(layer), 0, o.flipX, a);
    AlongIsBetween(CropRect(layer), 1, o.flipY, b);
    hide Along, Between, Percent, CropRect, Oriented;
  }

  /** Where in the buffer, in its pixels, is what the point u along and v down the frame shows: it lies in the crop as
      the turned and flipped point (u, v) lies in the unit square. */
  lemma PointShowsPixel(layer: Layer, u: real, v: real)
    requires Drawable(layer)
    ensures var x := Between(layer.frame.left, layer.frame.right, u);
            var y := Between(layer.frame.top, layer.frame.bottom, v);
            var at, p := Shows(layer, x, y), Placed(Oriented(layer.transform), u, v);
            && at.0 * layer.width as real == Between(layer.crop.left, layer.crop.right, p.0)
            && at.1 * layer.height as real == Between(layer.crop.top, layer.crop.bottom, p.1)
  {
    var x := Between(layer.frame.left, layer.frame.right, u);
    var y := Between(layer.frame.top, layer.frame.bottom, v);
    hide *;
    PercentsBack(layer, u, v);
    ShowsPlaced(layer, x, y);
    CropScaled(layer, Placed(Oriented(layer.transform), u, v));
  }

  lemma PercentsBack(layer: Layer, u: real, v: real)
    requires Drawable(layer)
    ensures layer.frame.Bound(2) != layer.frame.Bound(0) && layer.frame.Bound(3) != layer.frame.Bound(1)
    ensures Percent(layer.frame, 0, Between(layer.frame.left, layer.frame.right, u)) == u
    ensures Percent(layer.frame, 1, Between(layer.frame.top, layer.frame.bottom, v)) == v
  {
    PercentBack(layer.frame, 0, u);
    PercentBack(layer.frame, 1, v);
    hide Percent, Between;
  }

  lemma CropScaled(layer: Layer, p: Point)
    requires Drawable(layer)
    ensures layer.width > 0 && layer.height > 0
    ensures var c := CropRect(layer);
            && Between(c.left, c.right, p.0) * layer.width as real == Between(layer.crop.left, layer.crop.right, p.0)
            && Between(c.top, c.bottom, p.1) * layer.height as real == Between(layer.crop.top, layer.crop.bottom, p.1)
  {
    CropTimes(layer);
    var c := CropRect(layer);
    hide *;
    Scaled(c.left, c.right, layer.crop.left, layer.crop.right, layer.width as real, p.0);
    Scaled(c.top, c.bottom, layer.crop.top, layer.crop.bottom, layer.height as real, p.1);
  }

  lemma CropTimes(layer: Layer)
    requires layer.width > 0 && layer.height > 0
    ensures CropRect(layer).left * layer.width as real == layer.crop.left
    ensures CropRect(layer).right * layer.width as real == layer.crop.right
    ensures CropRect(layer).top * layer.height as real == layer.crop.top
    ensures CropRect(layer).bottom * layer.height as real == layer.crop.bottom
  {
  }

  lemma PercentBack(frame: Rect, axis: nat, u: real)
    requires axis < 2 && frame.Bound(axis + 2) != frame.Bound(axis)
    ensures Percent(frame, axis, Between(frame.Bound(axis), frame.Bound(axis + 2), u)) == u
  {
    var size := frame.Bound(axis + 2) - frame.Bound(axis);
    Quotient(u * size, size, u);
  }

  lemma Scaled(l: real, h: real, low: real, high: real, s: real, p: real)
    requires l * s == low && h * s == high
    ensures Between(l, h, p) * s == Between(low, high, p)
  {
    assert (l + p * (h - l)) * s == l * s + p * (h * s - l * s);
  }

  lemma InsideBetween(low: real, high: real, p: real)
    requires low < high
    ensures low <= Between(low, high, p) <= high <==> 0.0 <= p <= 1.0
  {
    SignKept(p, high - low);
    SignKept(p - 1.0, high - low);
  }

  lemma SignKept(p: real, s: real)
    requires s > 0.0
    ensures (p * s >= 0.0 <==> p >= 0.0) && (p * s <= 0.0 <==> p <= 0.0)
  {
  }

  lemma PercentInside(frame: Rect, axis: nat, at: real)
    requires axis < 2 && frame.Bound(axis) < frame.Bound(axis + 2)
    ensures 0.0 <= Percent(frame, axis, at) <= 1.0 <==> frame.Bound(axis) <= at <= frame.Bound(axis + 2)
  {
    var p, low, high := Percent(frame, axis, at), frame.Bound(axis), frame.Bound(axis + 2);
    assert p * (high - low) == at - low;
    InsideBetween(low, high, p);
  }

  /** Whatever the transform, the points of the frame are the points that show some of the crop. */
  lemma FrameShowsCrop(layer: Layer, x: real, y: real)
    requires Drawable(layer) && layer.frame.left < layer.frame.right && layer.frame.top < layer.frame.bottom
    requires layer.crop.left < layer.crop.right && layer.crop.top < layer.crop.bottom
    ensures var c, at := layer.crop, Shows(layer, x, y);
            (layer.frame.left <= x <= layer.frame.right && layer.frame.top <= y <= layer.frame.bottom)
            <==> (c.left <= at.0 * layer.width as real <= c.right && c.top <= at.1 * layer.height as real <= c.bottom)
  {
    CropInOrder(layer);
    FrameShowsPart(layer, x, y);
    InPixels(layer.crop.left, layer.crop.right, layer.width, Shows(layer, x, y).0);
    InPixels(layer.crop.top, layer.crop.bottom, layer.height, Shows(layer, x, y).1);
    hide Shows;
  }

  lemma InPixels(low: real, high: real, size: nat, at: real)
    requires size > 0
    ensures low / size as real <= at <= high / size as real <==> low <= at * size as real <= high
  {
    var s := size as real;
    var l, h := low / s, high / s;
    assert l * s == low && h * s == high;
    SignKept(at - l, s);
    SignKept(h - at, s);
    assert (at - l) * s == at * s - low && (h - at) * s == high - at * s;
  }

  lemma CropInOrder(layer: Layer)
    requires Drawable(layer) && layer.crop.left < layer.crop.right && layer.crop.top < layer.crop.bottom
    ensures CropRect(layer).left < CropRect(layer).right && CropRect(layer).top < CropRect(layer).bottom
  {
    InOrder(layer.crop.left, layer.crop.right, layer.width);
    InOrder(layer.crop.top, layer.crop.bottom, layer.height);
  }

  lemma InOrder(low: real, high: real, size: nat)
    requires size > 0 && low < high
    ensures low / size as real < high / size as real
  {
    var s := size as real;
    var l, h := low / s, high / s;
    assert (h - l) * s == high - low;
    SignKept(h - l, s);
  }

  lemma FrameShowsPart(layer: Layer, x: real, y: real)
    requires Drawable(layer) && layer.frame.left < layer.frame.right && layer.frame.top < layer.frame.bottom
    requires CropRect(layer).left < CropRect(layer).right && CropRect(layer).top < CropRect(layer).bottom
    ensures var c := CropRect(layer); var at := Shows(layer, x, y);
            (layer.frame.left <= x <= layer.frame.right && layer.frame.top <= y <= layer.frame.bottom)
            <==> (c.left <= at.0 <= c.right && c.top <= at.1 <= c.bottom)
  {
    var o, c := Oriented(layer.transform), CropRect(layer);
    var at := Placed(o, Percent(layer.frame, 0, x), Percent(layer.frame, 1, y));
    ShowsPlaced(layer, x, y);
    InsideBetween(c.left, c.right, at.0);
    InsideBetween(c.top, c.bottom, at.1);
    PercentInside(layer.frame, 0, x);
    PercentInside(layer.frame, 1, y);
    hide Between, Percent, CropRect, Oriented, Shows;
  }

  function Rotation(quarters: nat): Transform
    requires quarters < 4
  {
    match quarters
    case 0 => 0
    case 1 => Rotate90
    case 2 => Rotate180
    case _ => Rotate270
  }

  function Flags(flipH: bool, flipV: bool, quarters: nat): Transform
    requires quarters < 4
  {
    (if flipH then FlipH else 0) | (if flipV then FlipV else 0) | Rotation(quarters)
  }

  /** The point that a number of clockwise quarter turns brings to (u, v). */
  function Turned(quarters: nat, u: real, v: real): Point {
    if quarters == 0 then (u, v) else Turned(quarters - 1, v, 1.0 - u)
  }

  /** The buffer flipped, then turned. */
  function FlippedThenTurned(flipH: bool, flipV: bool, quarters: nat, u: real, v: real): Point {
    var (a, b) := Turned(quarters, u, v);
    (if flipH then 1.0 - a else a, if flipV then 1.0 - b else b)
  }

  lemma Turns(u: real, v: real)
    ensures Turned(0, u, v) == (u, v) && Turned(1, u, v) == (v, 1.0 - u)
    ensures Turned(2, u, v) == (1.0 - u, 1.0 - v) && Turned(3, u, v) == (1.0 - v, u)
  {
    assert Turned(2, u, v) == Turned(1, v, 1.0 - u) == Turned(0, 1.0 - u, 1.0 - v);
    assert Turned(3, u, v) == Turned(2, v, 1.0 - u) == Turned(1, 1.0 - u, 1.0 - v) == Turned(0, 1.0 - v, u);
  }

  /** Flags mean a flip followed by a turn exactly when a half or three-quarter turn comes with no flip, and a quarter
      turn with at most one. */
  lemma FlagsAreFlipsThenTurns(flipH: bool, flipV: bool, quarters: nat)
    requires quarters < 4
    ensures (forall u, v ::
               Placed(Oriented(Flags(flipH, flipV, quarters)), u, v) == FlippedThenTurned(flipH, flipV, quarters, u, v))
       <==> !(quarters >= 2 && (flipH || flipV)) && !(quarters == 1 && flipH && flipV)
  {
    var t := Flags(flipH, flipV, quarters);
    FlagBits(flipH, flipV, quarters);
    Turns(0.0, 0.25);
    hide Oriented, Flags, Turned;
    if !(quarters >= 2 && (flipH || flipV)) && !(quarters == 1 && flipH && flipV) {
      forall u, v ensures Placed(Oriented(t), u, v) == FlippedThenTurned(flipH, flipV, quarters, u, v) {
        Turns(u, v);
      }
    } else {
      assert Placed(Oriented(t), 0.0, 0.25) != FlippedThenTurned(flipH, flipV, quarters, 0.0, 0.25);
    }
  }

  lemma FlagBits(flipH: bool, flipV: bool, quarters: nat)
    requires quarters < 4
    ensures Oriented(Flags(flipH, flipV, quarters))
         == if quarters == 0 || (quarters >= 2 && (flipH || flipV)) then Orientation(false, flipH, flipV)
            else if quarters == 1 then Orientation(true, flipH, flipH || !flipV)
            else if quarters == 2 then Orientation(false, true, true)
            else Orientation(true, true, false)
  {
  }
}
