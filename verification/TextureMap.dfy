/** glworker.cpp, `ConstructCommand` and `GenerateVertexShader`: which part of a layer's buffer a region of the
    screen shows. Arithmetic is exact. */
module TextureMap {

  datatype Rect = Rect(left: real, top: real, right: real, bottom: real) {

    /** bounds[j] of the union: left, top, right, bottom. */
    function Bound(j: nat): real
      requires j < 4
    {
      match j
      case 0 => left
      case 1 => top
      case 2 => right
      case _ => bottom
    }
  }

  datatype Blending = NoBlending | PreMult | Coverage

  type Transform = bv6

  const FlipH: Transform := 1
  const FlipV: Transform := 2
  const Rotate90: Transform := 4
  const Rotate180: Transform := 8
  const Rotate270: Transform := 16

  type Alpha = a: nat | a <= 255

  datatype Layer = Layer(frame: Rect, crop: Rect, width: nat, height: nat, transform: Transform, blending: Blending,
                         alpha: Alpha)

  /** Divisions by the size of the frame and of the buffer make sense. */
  ghost predicate Drawable(layer: Layer) {
    layer.frame.right != layer.frame.left && layer.frame.bottom != layer.frame.top && layer.width > 0
        && layer.height > 0
  }

  /** How a transform places the buffer's axes on the screen's. */
  datatype Orientation = Orientation(swap: bool, flipX: bool, flipY: bool) {
    predicate Flip(axis: nat) {
      if axis == 0 then flipX else flipY
    }
  }

  function Oriented(t: Transform): Orientation {
    if t == Rotate180 then Orientation(false, true, true)
    else if t == Rotate270 then Orientation(true, true, false)
    else if t & Rotate90 != 0 then
      if t & FlipH != 0 then Orientation(true, true, true)
      else if t & FlipV != 0 then Orientation(true, false, false)
      else Orientation(true, false, true)
    else Orientation(false, t & FlipH != 0, t & FlipV != 0)
  }

  /** One texture of a command, as it is handed to the shaders. */
  datatype Source = Source(index: nat, crop: seq<real>, alpha: real, premult: real, matrix: seq<real>)

  const Identity: seq<real> := [1.0, 0.0, 0.0, 1.0]
  const SwapXY: seq<real> := [0.0, 1.0, 1.0, 0.0]

  // ---- What a layer shows where ----

  /** The crop in texture coordinates. */
  function CropRect(layer: Layer): Rect
    requires layer.width > 0 && layer.height > 0
  {
    Rect(layer.crop.left / layer.width as real, layer.crop.top / layer.height as real,
         layer.crop.right / layer.width as real, layer.crop.bottom / layer.height as real)
  }

  /** How far along the frame a screen coordinate lies, from 0 to 1. */
  function Percent(frame: Rect, axis: nat, at: real): real
    requires axis < 2 && frame.Bound(axis + 2) != frame.Bound(axis)
  {
    (at - frame.Bound(axis)) / (frame.Bound(axis + 2) - frame.Bound(axis))
  }

  /** That far along the crop, from its far side if the axis is flipped. */
  function Along(crop: Rect, axis: nat, flip: bool, percent: real): real
    requires axis < 2
  {
    var size := crop.Bound(axis + 2) - crop.Bound(axis);
    if flip then crop.Bound(axis + 2) - percent * size else crop.Bound(axis) + percent * size
  }

  /** The texture coordinate, on one axis, that the layer shows at a point of the screen. */
  function ShownOn(layer: Layer, axis: nat, x: real, y: real): real
    requires Drawable(layer) && axis < 2
  {
    var o := Oriented(layer.transform);
    if (axis == 0) == o.swap then Along(CropRect(layer), axis, o.Flip(axis), Percent(layer.frame, 1, y))
    else Along(CropRect(layer), axis, o.Flip(axis), Percent(layer.frame, 0, x))
  }

  /** The texture coordinates that the layer shows at a point of the screen. */
  function Shows(layer: Layer, x: real, y: real): (real, real)
    requires Drawable(layer)
  {
    (ShownOn(layer, 0, x, y), ShownOn(layer, 1, x, y))
  }

  // ---- The command ----

  /** What the bounds of a texture must be: what the layer shows at the two corners of the region. */
  ghost predicate IsCropOf(crop: seq<real>, layer: Layer, bounds: Rect)
    requires Drawable(layer)
  {
    && |crop| == 4
    && (crop[0], crop[1]) == Shows(layer, bounds.left, bounds.top)
    && (crop[2], crop[3]) == Shows(layer, bounds.right, bounds.bottom)
  }

  function Xor1(j: nat): nat {
    if j % 2 == 0 then j + 1 else j - 1
  }

  /** Bound j of the crop, computed from one coordinate of the region. */
  function BoundFrom(layer: Layer, bounds: Rect, j: nat): real
    requires Drawable(layer) && j < 4
  {
    var o := Oriented(layer.transform);
    var b := if o.swap then Xor1(j) else j;
    Along(CropRect(layer), j % 2, o.Flip(j % 2), Percent(layer.frame, b % 2, bounds.Bound(b)))
  }

  function BoundShown(layer: Layer, bounds: Rect, k: nat): real
    requires Drawable(layer) && k < 4
  {
    if k < 2 then ShownOn(layer, k, bounds.left, bounds.top) else ShownOn(layer, k - 2, bounds.right, bounds.bottom)
  }

  lemma BoundFromIsShown(layer: Layer, bounds: Rect, j: nat)
    requires Drawable(layer) && j < 4
    ensures BoundFrom(layer, bounds, j) == BoundShown(layer, bounds, j)
  {
    hide Along, Percent, Oriented, CropRect;
  }

  method CropBounds(layer: Layer, bounds: Rect) returns (crop: seq<real>)
    requires Drawable(layer)
    ensures IsCropOf(crop, layer, bounds)
  {
    crop := [];
    hide ShownOn, BoundFrom, BoundShown;
    for j := 0 to 4
      invariant |crop| == j
      invariant forall k :: 0 <= k < j ==> crop[k] == BoundShown(layer, bounds, k)
    {
      BoundFromIsShown(layer, bounds, j);
      crop := crop + [BoundFrom(layer, bounds, j)];
    }
    FourShown(layer, bounds);
  }

  lemma FourShown(layer: Layer, bounds: Rect)
    requires Drawable(layer)
    ensures (BoundShown(layer, bounds, 0), BoundShown(layer, bounds, 1)) == Shows(layer, bounds.left, bounds.top)
    ensures (BoundShown(layer, bounds, 2), BoundShown(layer, bounds, 3)) == Shows(layer, bounds.right, bounds.bottom)
  {
    hide ShownOn;
  }

  /** What a texture of a command must be. */
  ghost predicate IsSourceOf(source: Source, layer: Layer, index: nat, bounds: Rect)
    requires Drawable(layer)
  {
    && source.index == index
    && IsCropOf(source.crop, layer, bounds)
    && source.matrix == (if Oriented(layer.transform).swap then SwapXY else Identity)
    && source.alpha == (if layer.blending.NoBlending? then 1.0 else layer.alpha as real / 255.0)
    && source.premult == (if layer.blending.Coverage? then 0.0 else 1.0)
  }

  predicate InRange(layers: seq<Layer>, indices: seq<nat>) {
    forall k :: 0 <= k < |indices| ==> indices[k] < |layers|
  }

  ghost predicate AllDrawable(layers: seq<Layer>, indices: seq<nat>) {
    forall k :: 0 <= k < |indices| ==> indices[k] < |layers| && Drawable(layers[indices[k]])
  }

  /** The layers of a region that are drawn: down to the first that is not blended. */
  function Visible(layers: seq<Layer>, indices: seq<nat>): (v: seq<nat>)
    requires InRange(layers, indices)
    ensures |v| <= |indices| && v == indices[..|v|]
  {
    if indices == [] then []
    else if layers[indices[0]].blending.NoBlending? then indices[..1]
    else [indices[0]] + Visible(layers, indices[1..])
  }

  const MaxOverlappingLayers := 64

  class RenderingCommand {
    var bounds: Rect
    var textureCount: nat
    const textures: array<Source>

    constructor()
      ensures textureCount == 0 && textures.Length == MaxOverlappingLayers && fresh(textures)
    {
      bounds := Rect(0.0, 0.0, 0.0, 0.0);
      textureCount := 0;
      textures := new Source[MaxOverlappingLayers](_ => Source(0, [], 0.0, 0.0, []));
    }

    ghost predicate Valid()
      reads this
    {
      textures.Length == MaxOverlappingLayers && textureCount <= MaxOverlappingLayers
    }

    ghost function Contents(): seq<Source>
      reads this, textures
      requires Valid()
    {
      textures[..textureCount]
    }

    /** The next texture, for the next visible layer. */
    method AddTexture(layers: seq<Layer>, index: nat, ghost visible: seq<nat>)
      requires Valid() && textureCount < MaxOverlappingLayers && textureCount < |visible|
      requires AllDrawable(layers, visible) && visible[textureCount] == index
      requires Draws(Contents(), layers, visible[..textureCount], bounds)
      modifies this`textureCount, textures
      ensures Valid() && textureCount == old(textureCount) + 1
      ensures Draws(Contents(), layers, visible[..textureCount], bounds)
    {
      hide Drawable, IsSourceOf, Draws;
      ghost var before, n := Contents(), textureCount;
      textureCount := textureCount + 1;
      textures[textureCount - 1] := MakeSource(layers, index, bounds);
      DrawsNext(before, textures[n], layers, visible, n, bounds);
      assert textures[..n + 1] == before + [textures[n]];
    }

    /** `ConstructCommand`: the command gets the region's frame and one texture for every layer of the region, front
        to back, down to the first layer that is not blended. */
    method Construct(layers: seq<Layer>, frame: Rect, sourceLayers: seq<nat>)
      requires Valid() && textureCount == 0
      requires InRange(layers, sourceLayers) && AllDrawable(layers, Visible(layers, sourceLayers))
      requires |Visible(layers, sourceLayers)| <= MaxOverlappingLayers
      modifies this, textures
      ensures Valid() && bounds == frame
      ensures Draws(Contents(), layers, Visible(layers, sourceLayers), frame)
    {
      bounds := frame;
      hide Drawable, IsSourceOf, Visible, Draws, InRange, AllDrawable;
      ghost var visible := Visible(layers, sourceLayers);
      DrawsNone(layers, frame);
      var n := 0;
      VisibleWhole(layers, sourceLayers);
      while n < |sourceLayers|
        invariant n == textureCount <= |visible| && bounds == frame
        invariant visible == sourceLayers[..n] + Visible(layers, sourceLayers[n..])
        invariant Valid() && Draws(Contents(), layers, visible[..n], frame)
      {
        VisibleNext(layers, sourceLayers, visible, n);
        AddTexture(layers, sourceLayers[n], visible);
        if layers[sourceLayers[n]].blending.NoBlending? {
          return;
        }
        n := n + 1;
      }
      assert visible[..n] == visible;
    }
  }

  lemma VisibleNext(layers: seq<Layer>, indices: seq<nat>, visible: seq<nat>, n: nat)
    requires n < |indices| && InRange(layers, indices)
    requires visible == indices[..n] + Visible(layers, indices[n..])
    ensures n < |visible| && visible[n] == indices[n] < |layers|
    ensures layers[indices[n]].blending.NoBlending? ==> visible[..n + 1] == visible
    ensures !layers[indices[n]].blending.NoBlending? ==>
      visible == indices[..n + 1] + Visible(layers, indices[n + 1..])
  {
    Apart(indices, n);
    VisibleFirst(layers, indices[n..]);
    hide *;
    var last := layers[indices[n]].blending.NoBlending?;
    OneFurther(visible, indices[..n], indices[n], last, if last then [] else Visible(layers, indices[n + 1..]));
  }

  lemma Apart(indices: seq<nat>, n: nat)
    requires n < |indices|
    ensures indices[n..] != [] && indices[n..][0] == indices[n] && indices[n..][1..] == indices[n + 1..]
    ensures indices[..n] + [indices[n]] == indices[..n + 1]
  {
  }

  lemma OneFurther(visible: seq<nat>, front: seq<nat>, x: nat, last: bool, more: seq<nat>)
    requires visible == front + if last then [x] else [x] + more
    ensures |front| < |visible| && visible[|front|] == x
    ensures last ==> visible[..|front| + 1] == visible
    ensures !last ==> visible == front + [x] + more
  {
  }

  lemma VisibleFirst(layers: seq<Layer>, indices: seq<nat>)
    requires InRange(layers, indices) && indices != []
    ensures Visible(layers, indices) != [] && Visible(layers, indices)[0] == indices[0]
    ensures Visible(layers, indices)
         == if layers[indices[0]].blending.NoBlending? then [indices[0]]
            else [indices[0]] + Visible(layers, indices[1..])
  {
    assert indices[..1] == [indices[0]];
  }

  /** What the loop of `ConstructCommand` writes for one layer. */
  method MakeSource(layers: seq<Layer>, index: nat, bounds: Rect) returns (source: Source)
    requires index < |layers| && Drawable(layers[index])
    ensures IsSourceOf(source, layers[index], index, bounds)
  {
    var crop := CropBounds(layers[index], bounds);
    hide IsCropOf, Oriented, Drawable;
    var matrix := if Oriented(layers[index].transform).swap then SwapXY else Identity;
    if layers[index].blending.NoBlending? {
      return Source(index, crop, 1.0, 1.0, matrix);
    }
    var alpha := layers[index].alpha as real / 255.0;
    var premult := if layers[index].blending.PreMult? then 1.0 else 0.0;
    return Source(index, crop, alpha, premult, matrix);
  }

  lemma DrawsNone(layers: seq<Layer>, frame: Rect)
    ensures Draws([], layers, [], frame)
  {
  }

  lemma VisibleWhole(layers: seq<Layer>, indices: seq<nat>)
    requires InRange(layers, indices)
    ensures indices[0..] == indices && indices[..0] + Visible(layers, indices) == Visible(layers, indices)
    ensures indices[..|indices|] + Visible(layers, indices[|indices|..]) == indices
  {
    assert indices[|indices|..] == [];
  }

  lemma DrawsNext(sources: seq<Source>, source: Source, layers: seq<Layer>, indices: seq<nat>, n: nat, frame: Rect)
    requires n < |indices| && AllDrawable(layers, indices)
    requires Draws(sources, layers, indices[..n], frame) && IsSourceOf(source, layers[indices[n]], indices[n], frame)
    ensures Draws(sources + [source], layers, indices[..n + 1], frame)
  {
    hide IsSourceOf, Drawable;
  }

  ghost predicate Draws(sources: seq<Source>, layers: seq<Layer>, indices: seq<nat>, bounds: Rect)
    requires AllDrawable(layers, indices)
  {
    && |sources| == |indices|
    && forall k :: 0 <= k < |sources| ==> IsSourceOf(sources[k], layers[indices[k]], indices[k], bounds)
  }
}
