/** glworker.cpp: the colour of a pixel of a region, from the layers to the shader's output. */
module RegionColour {
  import opened TextureMap
  import opened TextureTheorems
  import opened Blend
  import opened BlendTheorems

  datatype Texel = Texel(rgb: Rgb, a: real)

  /** What the samplers return: the texel of a layer's buffer at a texture coordinate. */
  type Texels = (nat, Point) -> Texel

  ghost predicate FineTexel(t: Texel, blending: Blending) {
    t.rgb.Within(0.0, 1.0) && 0.0 <= t.a <= 1.0 && (blending.PreMult? ==> t.rgb.Within(0.0, t.a))
  }

  /** Texels lie between 0 and 1, and those of a premultiplied layer are premultiplied. */
  ghost predicate FineTexels(layers: seq<Layer>, texels: Texels) {
    forall i: nat, at: Point :: i < |layers| ==> FineTexel(texels(i, at), layers[i].blending)
  }

  ghost predicate WellFormed(sources: seq<Source>) {
    forall k :: 0 <= k < |sources| ==> |sources[k].crop| == 4 && |sources[k].matrix| == 4
  }

  function SampleOf(source: Source, texels: Texels, w: Weights): Sample
    requires |source.crop| == 4 && |source.matrix| == 4
  {
    var t := texels(source.index, FragmentCoord(source, w));
    Sample(t.rgb, t.a, source.alpha, source.premult)
  }

  /** What the fragment shader has to blend. */
  ghost function Samples(sources: seq<Source>, texels: Texels, w: Weights): (s: seq<Sample>)
    requires WellFormed(sources)
    ensures |s| == |sources|
  {
    seq(|sources|, k requires 0 <= k < |sources| => SampleOf(sources[k], texels, w))
  }

  /** What a layer brings to a point of the screen; one that is not blended is opaque. */
  function LayerSample(layer: Layer, index: nat, texels: Texels, x: real, y: real): Sample
    requires Drawable(layer)
  {
    SampleFor(layer, texels(index, Shows(layer, x, y)))
  }

  function SampleFor(layer: Layer, t: Texel): Sample {
    if layer.blending.NoBlending? then Sample(t.rgb, 1.0, 1.0, 1.0)
    else Sample(t.rgb, t.a, layer.alpha as real / 255.0, if layer.blending.PreMult? then 1.0 else 0.0)
  }

  /** All the layers of a region at a point. */
  ghost function Stack(layers: seq<Layer>, indices: seq<nat>, texels: Texels, x: real, y: real): (s: seq<Sample>)
    requires AllDrawable(layers, indices)
    ensures |s| == |indices|
  {
    seq(|indices|, k requires 0 <= k < |indices| => LayerSample(layers[indices[k]], indices[k], texels, x, y))
  }

  /** One layer over what is behind it, as a textbook has it: a layer that is not blended shows its texel's colour c; a
      blended one adds it, dimmed by the layer's alpha and, unless premultiplied, by the texel's own alpha a, and lets
      through what both alphas leave. */
  function Overlay(blending: Blending, c: Rgb, a: real, alpha: real, behind: Rgb): Rgb {
    var left := 1.0 - a * alpha;
    match blending
    case NoBlending => c
    case PreMult => Rgb(c.r * alpha + behind.r * left, c.g * alpha + behind.g * left, c.b * alpha + behind.b * left)
    case Coverage => Rgb(c.r * a * alpha + behind.r * left, c.g * a * alpha + behind.g * left,
                         c.b * a * alpha + behind.b * left)
  }

  /** All the layers at a point of the screen, each over those behind it. */
  function Laid(layers: seq<Layer>, indices: seq<nat>, texels: Texels, x: real, y: real): Rgb
    requires forall k :: 0 <= k < |indices| ==> indices[k] < |layers| && Drawable(layers[indices[k]])
  {
    if indices == [] then Rgb(0.0, 0.0, 0.0)
    else
      var layer := layers[indices[0]];
      var t := texels(indices[0], Shows(layer, x, y));
      Overlay(layer.blending, t.rgb, t.a, layer.alpha as real / 255.0, Laid(layers, indices[1..], texels, x, y))
  }

  lemma OverlayIsOver(layer: Layer, t: Texel, s: Sample, rest: seq<Sample>)
    requires FineTexel(t, layer.blending) && s == SampleFor(layer, t)
    ensures Over([s] + rest) == Overlay(layer.blending, t.rgb, t.a, layer.alpha as real / 255.0, Over(rest))
  {
    AlphaIsFraction(layer);
    assert UnitTexel(s);
    OverIsTextbook(s, rest);
    OverlayIsMixed(layer.blending, t.rgb, t.a, layer.alpha as real / 255.0, Over(rest));
    hide Over, UnitTexel, FineTexel, Mixed, Overlay;
  }

  lemma OverlayIsMixed(blending: Blending, c: Rgb, a: real, alpha: real, behind: Rgb)
    ensures Overlay(blending, c, a, alpha, behind)
         == if blending.NoBlending? then Mixed(c, 1.0, 1.0, 1.0, behind)
            else Mixed(c, if blending.PreMult? then 1.0 else a, a, alpha, behind)
  {
  }

  /** The stack amounts to that. */
  lemma {:induction false} StackIsLaid(layers: seq<Layer>, indices: seq<nat>, texels: Texels, x: real, y: real)
    requires AllDrawable(layers, indices) && FineTexels(layers, texels)
    ensures Over(Stack(layers, indices, texels, x, y)) == Laid(layers, indices, texels, x, y)
  {
    var s := Stack(layers, indices, texels, x, y);
    if indices == [] {
      OverNothing();
      assert s == [];
    } else {
      var layer, rest := layers[indices[0]], Stack(layers, indices[1..], texels, x, y);
      var t := texels(indices[0], Shows(layer, x, y));
      StackIsLaid(layers, indices[1..], texels, x, y);
      assert s == [s[0]] + rest && s[0] == SampleFor(layer, t);
      assert FineTexel(t, layer.blending);
      hide Over, Stack, Shows, Drawable, Overlay, SampleFor, FineTexel, FineTexels;
      OverlayIsOver(layer, t, s[0], rest);
    }
  }

  /** Every visible layer but the last is blended; if some layers are not visible, the last visible one is not
      blended. */
  lemma {:induction false} LastVisible(layers: seq<Layer>, indices: seq<nat>)
    requires InRange(layers, indices)
    ensures var v := Visible(layers, indices);
            && (indices != [] ==> v != [])
            && (forall k :: 0 <= k < |v| - 1 ==> !layers[indices[k]].blending.NoBlending?)
            && (|v| < |indices| ==> layers[indices[|v| - 1]].blending.NoBlending?)
  {
    if indices != [] && !layers[indices[0]].blending.NoBlending? {
      var rest := indices[1..];
      LastVisible(layers, rest);
      var v := Visible(layers, indices);
      assert |v| == |Visible(layers, rest)| + 1;
      forall k | 0 <= k < |v| - 1 ensures !layers[indices[k]].blending.NoBlending? {
        assert k > 0 ==> indices[k] == rest[k - 1];
      }
    }
  }

  /** The sample that the shader gets for a layer lights the pixel as the layer does. */
  lemma SampleMatches(source: Source, layer: Layer, index: nat, bounds: Rect, texels: Texels, width: nat, height: nat,
                      w: Weights)
    requires Drawable(layer) && IsSourceOf(source, layer, index, bounds) && width > 0 && height > 0 && IsWeights(w)
    requires forall at: Point :: FineTexel(texels(index, at), layer.blending)
    ensures var at := FragmentAt(bounds, width, height, w);
            var s, l := SampleOf(source, texels, w), LayerSample(layer, index, texels, at.0, at.1);
            && Light(s) == Light(l)
            && (!layer.blending.NoBlending? ==> s == l)
            && (layer.blending.NoBlending? ==> Hides(l) == 1.0)
            && ProperAt(s, layer.blending.NoBlending?)
  {
    Seamless(source, layer, index, bounds, width, height, w);
    var at := FragmentAt(bounds, width, height, w);
    var s, l := SampleOf(source, texels, w), LayerSample(layer, index, texels, at.0, at.1);
    var t := texels(index, FragmentCoord(source, w));
    assert FineTexel(t, layer.blending);
    AlphaIsFraction(layer);
    hide FragmentAt, FragmentCoord, Shows, IsCropOf, Drawable, ProperAt, Light, Hides, Oriented;
    if layer.blending.NoBlending? {
      UnblendedShowsTexel(s);
      UnblendedShowsTexel(l);
      OpaqueHides(l);
    } else {
      TexelIsPremultiplied(s);
    }
  }

  lemma OpaqueHides(s: Sample)
    requires s.a == 1.0 && s.alpha == 1.0
    ensures Hides(s) == 1.0
  {
  }

  lemma AlphaIsFraction(layer: Layer)
    ensures 0.0 <= layer.alpha as real / 255.0 <= 1.0
  {
  }

  lemma OverSameLight(s: seq<Sample>, p: seq<Sample>)
    requires |s| == |p| > 0 && s[..|s| - 1] == p[..|s| - 1] && Light(s[|s| - 1]) == Light(p[|s| - 1])
    ensures Over(s) == Over(p)
  {
    var n := |s| - 1;
    hide *;
    LastOver(s[..n], s[n]);
    LastOver(p[..n], p[n]);
    assert s == s[..n] + [s[n]] && p == p[..n] + [p[n]];
  }

  /** What the shader is given is proper, and amounts to the whole stack of layers. */
  lemma SamplesAreStack(sources: seq<Source>, layers: seq<Layer>, indices: seq<nat>, bounds: Rect, texels: Texels,
                        width: nat, height: nat, w: Weights)
    requires AllDrawable(layers, indices) && indices != [] && FineTexels(layers, texels)
    requires Draws(sources, layers, Visible(layers, indices), bounds)
    requires width > 0 && height > 0 && IsWeights(w)
    ensures var at := FragmentAt(bounds, width, height, w);
            && Proper(Samples(sources, texels, w))
            && Over(Samples(sources, texels, w)) == Over(Stack(layers, indices, texels, at.0, at.1))
  {
    var at := FragmentAt(bounds, width, height, w);
    var s, l := Samples(sources, texels, w), Stack(layers, indices, texels, at.0, at.1);
    var n := |s|;
    LastVisible(layers, indices);
    forall k | 0 <= k < n
      ensures ProperAt(s[k], k == n - 1) && Light(s[k]) == Light(l[k]) && (k < n - 1 ==> s[k] == l[k])
      ensures n < |l| && k == n - 1 ==> Hides(l[k]) == 1.0
    {
      var i := indices[k];
      SampleMatches(sources[k], layers[i], i, bounds, texels, width, height, w);
      StaysProper(s[k], layers[i].blending.NoBlending?, k == n - 1);
    }
    assert s[..n - 1] == l[..n][..n - 1];
    OverSameLight(s, l[..n]);
    if n < |l| {
      OpaqueHidesTheRest(l, n - 1);
    } else {
      assert l[..n] == l;
    }
  }

  lemma StaysProper(s: Sample, was: bool, now: bool)
    requires ProperAt(s, was) && (was ==> now)
    ensures ProperAt(s, now)
  {
  }

  /** The pixel: what the shader draws at a fragment is, within half a step of an eight-bit colour in every channel,
      all the layers of the region laid over one another, each showing the texel that belongs to that point of the
      screen. */
  lemma PixelIsStack(sources: seq<Source>, layers: seq<Layer>, indices: seq<nat>, bounds: Rect, texels: Texels,
                     width: nat, height: nat, w: Weights)
    requires AllDrawable(layers, indices) && indices != [] && FineTexels(layers, texels)
    requires Draws(sources, layers, Visible(layers, indices), bounds)
    requires width > 0 && height > 0 && IsWeights(w)
    ensures var at := FragmentAt(bounds, width, height, w); var s := Samples(sources, texels, w);
            Near(Laid(layers, indices, texels, at.0, at.1), FrontToBack(s[..Drawn(s)]).color, 0.5 / 255.0)
  {
    var at := FragmentAt(bounds, width, height, w);
    StackIsLaid(layers, indices, texels, at.0, at.1);
    SamplesAreStack(sources, layers, indices, bounds, texels, width, height, w);
    CutoffError(Samples(sources, texels, w));
    hide *;
  }
}
