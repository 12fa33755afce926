/** What the generated fragment shader is for: the layers laid over each other. */
module BlendTheorems {
  import opened Blend

  /** Back to front: the first layer over the rest. */
  function Over(layers: seq<Sample>): Rgb {
    if layers == [] then Black
    else Light(layers[0]).Plus(Over(layers[1..]).Times(1.0 - Hides(layers[0])))
  }

  /** How much of what is behind all of them is seen. */
  function Through(layers: seq<Sample>): real {
    if layers == [] then 1.0 else Part(1.0 - Hides(layers[0]), Through(layers[1..]))
  }

  /** A texel times m and alpha, over what a texel of alpha a, dimmed by alpha, leaves of what is behind it. */
  function Mixed(c: Rgb, m: real, a: real, alpha: real, behind: Rgb): Rgb {
    Rgb(c.r * m * alpha + behind.r * (1.0 - a * alpha),
        c.g * m * alpha + behind.g * (1.0 - a * alpha),
        c.b * m * alpha + behind.b * (1.0 - a * alpha))
  }

  /** For a texel between 0 and 1 this is the textbook's operator: a premultiplied texel, dimmed by the layer's alpha,
      over what is left of the rest; a texel that is not premultiplied is multiplied by its own alpha first. */
  lemma OverIsTextbook(s: Sample, rest: seq<Sample>)
    requires UnitTexel(s)
    ensures s.premult == 0.0 || s.premult == 1.0 ==>
      Over([s] + rest) == Mixed(s.rgb, if s.premult == 1.0 then 1.0 else s.a, s.a, s.alpha, Over(rest))
    ensures Through([s] + rest) == (1.0 - s.a * s.alpha) * Through(rest)
    ensures Over([]) == Rgb(0.0, 0.0, 0.0) && Through([]) == 1.0
  {
    OverStep(s, rest);
    OverNothing();
    hide Over, Through, Light, Hides;
    LightIs(s);
    HidesIs(s, Through(rest));
  }

  lemma LightIs(s: Sample)
    requires UnitTexel(s)
    ensures var m := if s.premult == 1.0 then 1.0 else s.a;
            s.premult == 0.0 || s.premult == 1.0 ==>
              Light(s) == Rgb(s.rgb.r * m * s.alpha, s.rgb.g * m * s.alpha, s.rgb.b * m * s.alpha)
  {
    assert s.premult == 0.0 || s.premult == 1.0 ==> Max(s.a, s.premult) == if s.premult == 1.0 then 1.0 else s.a;
    hide Max;
  }

  lemma HidesIs(s: Sample, t: real)
    ensures Hides(s) == s.a * s.alpha && Part(1.0 - Hides(s), t) == (1.0 - s.a * s.alpha) * t
  {
  }

  lemma Regroup(x: Rgb, y: Rgb, z: Rgb, h: real, t: real)
    ensures x.Plus(y.Plus(z.Times(t)).Times(h)) == x.Plus(y.Times(h)).Plus(z.Times(Part(h, t)))
  {
    assert (y.r + z.r * t) * h == y.r * h + z.r * (h * t);
    assert (y.g + z.g * t) * h == y.g * h + z.g * (h * t);
    assert (y.b + z.b * t) * h == y.b * h + z.b * (h * t);
  }

  lemma OverStep(s: Sample, rest: seq<Sample>)
    ensures Over([s] + rest) == Light(s).Plus(Over(rest).Times(1.0 - Hides(s)))
    ensures Through([s] + rest) == Part(1.0 - Hides(s), Through(rest))
  {
    hide Light, Hides;
    assert ([s] + rest)[1..] == rest;
  }

  lemma OverNothing()
    ensures Over([]) == Black && Through([]) == 1.0
  {
  }

  lemma PlusNothing(z: Rgb)
    ensures z == Black.Plus(z.Times(1.0)) && z.Plus(Black) == z && z.Times(0.0) == Black
  {
  }

  lemma {:induction false} OverJoined(p: seq<Sample>, q: seq<Sample>)
    ensures Over(p + q) == Over(p).Plus(Over(q).Times(Through(p)))
    ensures Through(p + q) == Part(Through(p), Through(q))
  {
    hide *;
    if p == [] {
      assert p + q == q;
      OverNothing();
      PlusNothing(Over(q));
      PartOfOne(Through(q));
    } else {
      var s, rest := p[0], p[1..];
      assert p == [s] + rest;
      assert p + q == [s] + (rest + q);
      OverStep(s, rest + q);
      OverStep(s, rest);
      OverJoined(rest, q);
      Regroup(Light(s), Over(rest), Over(q), 1.0 - Hides(s), Through(rest));
      Associate(1.0 - Hides(s), Through(rest), Through(q));
    }
  }

  lemma Associate(x: real, y: real, z: real)
    ensures Part(x, Part(y, z)) == Part(Part(x, y), z)
  {
  }

  /** Accumulating front to back, without the cutoff, is laying the layers over each other back to front. */
  lemma {:induction false} FrontToBackIsOver(layers: seq<Sample>)
    ensures FrontToBack(layers) == Blended(Over(layers), Through(layers))
  {
    if layers == [] {
    } else {
      var p, x := layers[..|layers| - 1], layers[|layers| - 1];
      FrontToBackIsOver(p);
      LastOver(p, x);
      assert p + [x] == layers;
      hide Over, Through, Light, Hides, Part, Rgb.Plus, Rgb.Times;
    }
  }

  lemma LastOver(p: seq<Sample>, x: Sample)
    ensures Over(p + [x]) == Over(p).Plus(Light(x).Times(Through(p)))
    ensures Through(p + [x]) == Part(Through(p), 1.0 - Hides(x))
  {
    hide *;
    OverJoined(p, [x]);
    OverOne(x);
  }

  lemma OverOne(x: Sample)
    ensures Over([x]) == Light(x) && Through([x]) == 1.0 - Hides(x)
  {
    hide *;
    var none: seq<Sample> := [];
    assert [x] == [x] + none;
    OverStep(x, none);
    OverNothing();
    BlackDimmed(1.0 - Hides(x));
    PlusNothing(Light(x));
    PartOfOne(1.0 - Hides(x));
  }

  lemma BlackDimmed(k: real)
    ensures Black.Times(k) == Black
  {
  }

  // ---- Samples as the compositor sets them ----

  /** Colour premultiplied by the layer's opacity, for every layer but perhaps the last, which may be brighter than
      it is opaque, as a layer that is not blended can be. */
  ghost predicate Proper(layers: seq<Sample>) {
    forall i :: 0 <= i < |layers| ==> ProperAt(layers[i], i == |layers| - 1)
  }

  ghost predicate ProperAt(s: Sample, last: bool) {
    0.0 <= Hides(s) <= 1.0 && Light(s).Within(0.0, if last then 1.0 else Hides(s))
  }

  ghost predicate Premultiplied(layers: seq<Sample>) {
    forall i :: 0 <= i < |layers| ==> ProperAt(layers[i], false)
  }

  ghost predicate UnitTexel(s: Sample) {
    s.rgb.Within(0.0, 1.0) && 0.0 <= s.a <= 1.0 && 0.0 <= s.alpha <= 1.0
  }

  lemma Product(x: real, y: real, a: real, b: real)
    requires 0.0 <= x <= a && 0.0 <= y <= b
    ensures 0.0 <= Part(x, y) <= Part(a, b)
  {
  }

  /** A premultiplied texel no brighter than its alpha, and any texel of a coverage layer, are premultiplied by the
      layer's opacity. */
  lemma TexelIsPremultiplied(s: Sample)
    requires UnitTexel(s)
    requires s.premult == 0.0 || (s.premult == 1.0 && s.rgb.Within(0.0, s.a))
    ensures ProperAt(s, false)
  {
    var m := Max(s.a, s.premult);
    BrightAsAlpha(s, m);
    hide Rgb.Times, Rgb.Within, Part, Max;
    PartOfOne(1.0);
    Product(s.a, s.alpha, 1.0, 1.0);
    Dimmed(s.rgb.Times(m), s.alpha, s.a);
  }

  lemma BrightAsAlpha(s: Sample, m: real)
    requires UnitTexel(s) && m == Max(s.a, s.premult)
    requires s.premult == 0.0 || (s.premult == 1.0 && s.rgb.Within(0.0, s.a))
    ensures s.rgb.Times(m).Within(0.0, s.a)
  {
    if s.premult == 0.0 {
      Dimmed(s.rgb, s.a, 1.0);
      PartOfOne(s.a);
      hide Rgb.Times, Part;
    } else {
      RgbTimesOne(s.rgb);
      hide Rgb.Times;
    }
  }

  lemma RgbTimesOne(c: Rgb)
    ensures c.Times(1.0) == c
  {
  }

  lemma PartOfOne(x: real)
    ensures Part(1.0, x) == Part(x, 1.0) == x
  {
  }

  lemma PartOfDifference(h: real, t: real)
    ensures Part(1.0 - t, h) == h - Part(h, t)
  {
  }

  lemma Dimmed(c: Rgb, k: real, bound: real)
    requires c.Within(0.0, bound) && 0.0 <= k
    ensures c.Times(k).Within(0.0, Part(bound, k))
  {
    Product(c.r, k, bound, k);
    Product(c.g, k, bound, k);
    Product(c.b, k, bound, k);
  }

  lemma Added(c: Rgb, d: Rgb, x: real, y: real, z: real)
    requires c.Within(0.0, x) && d.Within(0.0, y) && x + y <= z
    ensures c.Plus(d).Within(0.0, z)
  {
  }

  /** A layer that is not blended shows its texel as it is, whatever the texel's alpha. */
  lemma UnblendedShowsTexel(s: Sample)
    requires UnitTexel(s) && s.alpha == 1.0 && s.premult == 1.0
    ensures Light(s) == s.rgb && ProperAt(s, true)
  {
  }

  lemma TailIsProper(layers: seq<Sample>)
    requires Proper(layers) && layers != []
    ensures Proper(layers[1..])
    ensures layers == [layers[0]] + layers[1..] && ProperAt(layers[0], |layers| == 1)
  {
    hide ProperAt;
    var rest := layers[1..];
    forall i | 0 <= i < |rest| ensures ProperAt(rest[i], i == |rest| - 1) {
      assert rest[i] == layers[i + 1];
    }
  }

  lemma {:induction false} OverIsColour(layers: seq<Sample>)
    requires Proper(layers)
    ensures Over(layers).Within(0.0, 1.0) && 0.0 <= Through(layers) <= 1.0
  {
    if layers == [] {
    } else {
      var s, rest := layers[0], layers[1..];
      TailIsProper(layers);
      OverIsColour(rest);
      hide Over, Through, Light, Hides, Rgb.Plus, Rgb.Times, Rgb.Within, Proper;
      OverStep(s, rest);
      if rest == [] {
        OverOne(s);
      } else {
        var h := 1.0 - Hides(s);
        Product(h, Through(rest), 1.0, 1.0);
        Dimmed(Over(rest), h, 1.0);
        Added(Light(s), Over(rest).Times(h), Hides(s), 1.0 * h, 1.0);
      }
    }
  }

  /** What comes out is premultiplied again: no channel is brighter than the output's alpha. */
  lemma {:induction false} StaysPremultiplied(layers: seq<Sample>)
    requires Premultiplied(layers)
    ensures Over(layers).Within(0.0, 1.0 - Through(layers)) && 0.0 <= Through(layers) <= 1.0
  {
    if layers == [] {
    } else {
      var s, rest := layers[0], layers[1..];
      assert ProperAt(s, false) && layers == [s] + rest;
      assert forall i :: 0 <= i < |rest| ==> rest[i] == layers[i + 1];
      StaysPremultiplied(rest);
      hide Over, Through, Light, Hides, Part, Rgb.Plus, Rgb.Times, Rgb.Within, Premultiplied;
      OverStep(s, rest);
      var h, t := 1.0 - Hides(s), Through(rest);
      Product(h, t, 1.0, 1.0);
      PartOfOne(1.0);
      Dimmed(Over(rest), h, 1.0 - t);
      PartOfDifference(h, t);
      Added(Light(s), Over(rest).Times(h), Hides(s), Part(1.0 - t, h), 1.0 - Part(h, t));
    }
  }

  // ---- The cutoff ----

  /** If the shader leaves layers out, the cover was down to the cutoff before them. */
  lemma {:induction false} DrawnToCutoff(layers: seq<Sample>)
    ensures Drawn(layers) < |layers| ==> FrontToBack(layers[..Drawn(layers)]).cover <= 0.5 / 255.0
  {
    if layers != [] {
      var p := layers[..|layers| - 1];
      DrawnToCutoff(p);
      assert layers[..Drawn(p)] == p[..Drawn(p)];
      assert layers[..Drawn(layers)] == if Drawn(layers) == |layers| then layers else p[..Drawn(p)];
    }
  }

  /** And before every later layer that it draws, the cover was above the cutoff. */
  lemma {:induction false} DrawnAboveCutoff(layers: seq<Sample>, k: nat)
    requires 0 < k < Drawn(layers)
    ensures FrontToBack(layers[..k]).cover > 0.5 / 255.0
    decreases |layers|
  {
    var p := layers[..|layers| - 1];
    if k < Drawn(p) {
      assert p[..k] == layers[..k];
      DrawnAboveCutoff(p, k);
    } else {
      assert layers[..k] == p;
    }
  }

  ghost predicate Near(full: Rgb, drawn: Rgb, bound: real) {
    && 0.0 <= full.r - drawn.r <= bound
    && 0.0 <= full.g - drawn.g <= bound
    && 0.0 <= full.b - drawn.b <= bound
  }

  /** Stopping at the cutoff darkens no channel by more than half a step of an eight-bit colour, and lowers the
      alpha by no more. */
  lemma CutoffError(layers: seq<Sample>)
    requires Proper(layers)
    ensures var drawn := FrontToBack(layers[..Drawn(layers)]);
            Near(Over(layers), drawn.color, 0.5 / 255.0) && 0.0 <= drawn.cover - Through(layers) <= 0.5 / 255.0
  {
    var d := Drawn(layers);
    var p, q := layers[..d], layers[d..];
    FrontToBackIsOver(p);
    DrawnToCutoff(layers);
    assert p + q == layers;
    if d == |layers| {
      assert p == layers;
      assert Cutoff >= 0.0;
      hide Over, Through, FrontToBack, Drawn, Proper;
    } else {
      PartsProper(layers, d);
      OverIsColour(q);
      ThroughOfPart(layers, d);
      hide *;
      OverJoined(p, q);
      var t := Through(p);
      Dimmed(Over(q), t, 1.0);
      PartOfOne(t);
      NearPlus(Over(p), Over(q).Times(t), t, Cutoff);
      PartWithin(t, Through(q));
    }
  }

  lemma NearPlus(c: Rgb, d: Rgb, x: real, bound: real)
    requires d.Within(0.0, x) && x <= bound
    ensures Near(c.Plus(d), c, bound)
  {
  }

  lemma PartWithin(t: real, x: real)
    requires 0.0 <= t && 0.0 <= x <= 1.0
    ensures 0.0 <= Part(t, x) <= t
  {
  }

  lemma PartsProper(layers: seq<Sample>, d: nat)
    requires Proper(layers) && d < |layers|
    ensures Proper(layers[d..])
  {
    var q := layers[d..];
    forall i | 0 <= i < |q| ensures ProperAt(q[i], i == |q| - 1) {
      assert q[i] == layers[d + i];
    }
  }

  lemma {:induction false} ThroughOfPart(layers: seq<Sample>, d: nat)
    requires Proper(layers) && d <= |layers|
    ensures 0.0 <= Through(layers[..d]) <= 1.0
  {
    if d == 0 {
    } else {
      var s, rest := layers[0], layers[1..];
      TailIsProper(layers);
      ThroughOfPart(rest, d - 1);
      assert layers[..d] == [s] + rest[..d - 1];
      hide Over, Through, Proper, Hides;
      OverStep(s, rest[..d - 1]);
      Product(1.0 - Hides(s), Through(rest[..d - 1]), 1.0, 1.0);
    }
  }

  // ---- Opaque layers ----

  lemma {:induction false} DrawnStops(layers: seq<Sample>, m: nat)
    requires 0 < m <= |layers| && FrontToBack(layers[..m]).cover <= Cutoff
    ensures Drawn(layers) == Drawn(layers[..m])
    decreases |layers|
  {
    if m == |layers| {
      assert layers[..m] == layers;
    } else {
      var p := layers[..|layers| - 1];
      assert p[..m] == layers[..m];
      DrawnStops(p, m);
      if m == |p| { assert p[..m] == p; }
    }
  }

  /** Below a layer whose opacity is one nothing matters: not to the layers laid over each other, and not to the
      shader. */
  lemma OpaqueHidesTheRest(layers: seq<Sample>, k: nat)
    requires k < |layers| && Hides(layers[k]) == 1.0
    ensures Over(layers) == Over(layers[..k + 1]) && Through(layers) == Through(layers[..k + 1]) == 0.0
    ensures layers[..Drawn(layers)] == layers[..k + 1][..Drawn(layers[..k + 1])]
  {
    var p, q := layers[..k + 1], layers[k + 1..];
    OpaqueLast(layers, k);
    FrontToBackIsOver(p);
    DrawnStops(layers, k + 1);
    assert layers[..Drawn(p)] == p[..Drawn(p)];
    hide *;
    assert p + q == layers;
    OverJoined(p, q);
    PlusNothing(Over(q));
    PlusNothing(Over(p));
    Zero(Through(q));
  }

  lemma Zero(x: real)
    ensures Part(x, 0.0) == Part(0.0, x) == 0.0
  {
  }

  lemma OpaqueLast(layers: seq<Sample>, k: nat)
    requires k < |layers| && Hides(layers[k]) == 1.0
    ensures Through(layers[..k + 1]) == 0.0
  {
    hide *;
    assert layers[..k + 1] == layers[..k] + [layers[k]];
    LastOver(layers[..k], layers[k]);
    Zero(Through(layers[..k]));
  }

  // ---- The alpha that comes out ----

  ghost predicate HasOpaque(layers: seq<Sample>) {
    exists i :: 0 <= i < |layers| && Hides(layers[i]) == 1.0
  }

  lemma NoPart(x: real, y: real)
    ensures Part(x, y) == 0.0 <==> x == 0.0 || y == 0.0
  {
  }

  /** Something behind all layers is seen unless one of them has opacity one. */
  lemma {:induction false} ThroughVanishes(layers: seq<Sample>)
    ensures Through(layers) == 0.0 <==> HasOpaque(layers)
  {
    if layers == [] {
    } else {
      var s, rest := layers[0], layers[1..];
      ThroughVanishes(rest);
      assert layers == [s] + rest;
      hide Hides, Through, Part;
      OverStep(s, rest);
      NoPart(1.0 - Hides(s), Through(rest));
      assert forall i :: 0 <= i < |rest| ==> rest[i] == layers[i + 1];
      assert forall i :: 0 < i < |layers| ==> layers[i] == rest[i - 1];
    }
  }

  /** The alpha that the shader returns is one exactly when a layer that it draws has opacity one. */
  lemma ReturnedAlpha(layers: seq<Sample>)
    ensures 1.0 - FrontToBack(layers[..Drawn(layers)]).cover == 1.0 <==> HasOpaque(layers[..Drawn(layers)])
  {
    FrontToBackIsOver(layers[..Drawn(layers)]);
    ThroughVanishes(layers[..Drawn(layers)]);
    hide Over, Through, HasOpaque, FrontToBack, Drawn;
  }

  /** A layer that is not blended does not make it so: a half transparent white texel gives white with alpha a half. */
  lemma UnblendedAlpha()
    ensures var s := Sample(Rgb(1.0, 1.0, 1.0), 0.5, 1.0, 1.0);
            && UnitTexel(s) && Drawn([s]) == 1
            && FrontToBack([s]) == Blended(Rgb(1.0, 1.0, 1.0), 0.5)
  {
    var s := Sample(Rgb(1.0, 1.0, 1.0), 0.5, 1.0, 1.0);
    var none: seq<Sample> := [];
    assert [s][..0] == none;
    FirstIsDrawn([s]);
  }
}
