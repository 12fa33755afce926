/** hwcomposer.cpp, `Rgb888_to_color_eink2`: the colour filter mosaic at full resolution, in the optimised
    form (the default) and in the original form kept beside it. */
module Mosaic2 {
  import opened Canvas
  import ColourFilter

  /** The four-bit channels of a pixel, in the order in which the filter repeats them: red, blue, green. */
  function Channel(p: Pixel, k: nat): bv32 {
    if k % 3 == 0 then (p >> 4) & 0xf
    else if k % 3 == 1 then (p >> 20) & 0xf
    else (p >> 12) & 0xf
  }

  function Quarter(p: bv32, q: bv32, r: bv32, s: bv32): bv32 {
    (p + q + r + s) >> 2
  }

  /** The floor average of one channel over four pixels. */
  function Average(a: Pixel, b: Pixel, c: Pixel, d: Pixel, k: nat): bv32 {
    Quarter(Channel(a, k), Channel(b, k), Channel(c, k), Channel(d, k))
  }

  /** Channel k averaged over the two-by-two block (x, y) of an image. */
  function BlockAverage(src: seq<Pixel>, width: nat, x: nat, y: nat, k: nat): bv32 {
    var i, j := At(2 * y, width, 2 * x), At(2 * y + 1, width, 2 * x);
    if j + 1 < |src| && i + 1 < |src| then Average(src[i], src[i + 1], src[j], src[j + 1], k) else 0
  }

  /** Nibble (x, y) of the mosaic: its block's average of the channel that the filter has there. */
  function MosaicNibble(src: seq<Pixel>, width: nat, x: nat, y: nat): bv32 {
    BlockAverage(src, width, x / 2, y / 2, (x + 2 * y) % 3)
  }

  function MosaicPicture(src: seq<Pixel>, width: nat): Picture {
    (y: nat, c: nat) => Join(MosaicNibble(src, width, 2 * c, y), MosaicNibble(src, width, 2 * c + 1, y))
  }

  // ---- Four masked pixels in one sum ----

  /** The sum of four pixels masked to their high nibbles, as the optimised form computes it. */
  function MaskedSum(a: Pixel, b: Pixel, c: Pixel, d: Pixel): bv32 {
    ((a & 0x00f0_f0f0) + (b & 0x00f0_f0f0) + (c & 0x00f0_f0f0) + (d & 0x00f0_f0f0)) >> 2
  }

  lemma AverageIsQuarter(a: Pixel, b: Pixel, c: Pixel, d: Pixel)
    ensures Average(a, b, c, d, 0) == Quarter((a >> 4) & 0xf, (b >> 4) & 0xf, (c >> 4) & 0xf, (d >> 4) & 0xf)
    ensures Average(a, b, c, d, 1) == Quarter((a >> 20) & 0xf, (b >> 20) & 0xf, (c >> 20) & 0xf, (d >> 20) & 0xf)
    ensures Average(a, b, c, d, 2) == Quarter((a >> 12) & 0xf, (b >> 12) & 0xf, (c >> 12) & 0xf, (d >> 12) & 0xf)
  {
    hide Quarter;
  }

  /** The lanes never mix: each nibble of the shifted sum is the average of its channel. */
  lemma RedLane(a: Pixel, b: Pixel, c: Pixel, d: Pixel)
    ensures (MaskedSum(a, b, c, d) >> 4) & 0xf == Average(a, b, c, d, 0)
  {
    AverageIsQuarter(a, b, c, d);
    hide Average, Channel;
  }

  lemma BlueLane(a: Pixel, b: Pixel, c: Pixel, d: Pixel)
    ensures (MaskedSum(a, b, c, d) >> 20) & 0xf == Average(a, b, c, d, 1)
  {
    AverageIsQuarter(a, b, c, d);
    hide Average, Channel;
  }

  lemma GreenLane(a: Pixel, b: Pixel, c: Pixel, d: Pixel)
    ensures (MaskedSum(a, b, c, d) >> 12) & 0xf == Average(a, b, c, d, 2)
  {
    AverageIsQuarter(a, b, c, d);
    hide Average, Channel;
  }

  // ---- Where the loops are ----

  /** How many bytes of a row the mosaic fills: three for every six pixels. */
  function Columns(virWidth: nat): nat {
    virWidth / 6 * 3
  }

  /** The sizes of the buffers for an image of 2h rows. */
  ghost predicate Fits(srcLen: nat, dstLen: nat, virWidth: nat, h: nat) {
    && At(2 * h, virWidth, 0) <= srcLen
    && (h > 0 ==> Place(Halves(virWidth, 2), 2 * h - 1, 0) + Columns(virWidth) <= dstLen)
  }

  /** The destination with i pairs of rows complete. */
  ghost function MosaicRows(src: seq<Pixel>, virWidth: nat, before: seq<Byte>, i: nat): seq<Byte>
  {
    Painted(before, Halves(virWidth, 2), Columns(virWidth), MosaicPicture(src, virWidth), 2 * i, [])
  }

  /** And with c bytes of each of the next two rows. */
  ghost predicate RowPairAt(src: seq<Pixel>, virWidth: nat, dst: seq<Byte>, before: seq<Byte>, i: nat, c: nat) {
    && |dst| == |before|
    && dst == Painted(before, Halves(virWidth, 2), Columns(virWidth), MosaicPicture(src, virWidth), 2 * i, [c, c])
  }

  lemma RowPairStart(src: seq<Pixel>, virWidth: nat, before: seq<Byte>, i: nat)
    ensures RowPairAt(src, virWidth, MosaicRows(src, virWidth, before, i), before, i, 0)
  {
    var n: seq<nat> := [];
    PaintRowsDone(before, Halves(virWidth, 2), Columns(virWidth), MosaicPicture(src, virWidth), 2 * i, n, [0, 0]);
  }

  lemma RowPairEnd(src: seq<Pixel>, virWidth: nat, dst: seq<Byte>, before: seq<Byte>, i: nat)
    requires RowPairAt(src, virWidth, dst, before, i, Columns(virWidth))
    ensures dst == MosaicRows(src, virWidth, before, i + 1)
  {
    var c := Columns(virWidth);
    var n: seq<nat> := [];
    PaintRowsDone(before, Halves(virWidth, 2), c, MosaicPicture(src, virWidth), 2 * i, [c, c], n);
  }

  lemma NothingYet(src: seq<Pixel>, virWidth: nat, before: seq<Byte>)
    ensures MosaicRows(src, virWidth, before, 0) == before
  {
    PaintNothing(before, Halves(virWidth, 2), Columns(virWidth), MosaicPicture(src, virWidth), []);
  }

  /** Column c of row pair i lies inside both buffers. */
  lemma Inside(srcLen: nat, dstLen: nat, virWidth: nat, h: nat, i: nat, c: nat)
    requires Fits(srcLen, dstLen, virWidth, h) && i < h && c < Columns(virWidth)
    ensures At(2 * i, virWidth, 2 * c) + 1 < srcLen && At(2 * i + 1, virWidth, 2 * c) + 1 < srcLen
    ensures Place(Halves(virWidth, 2), 2 * i, c) < dstLen && Place(Halves(virWidth, 2), 2 * i + 1, c) < dstLen
  {
    AtOffset(2 * i, virWidth);
    AtOffset(2 * i + 1, virWidth);
    PlaceOffset(Halves(virWidth, 2), 2 * i);
    PlaceOffset(Halves(virWidth, 2), 2 * i + 1);
    NextAt(2 * i, virWidth);
    NextAt(2 * i + 1, virWidth);
    AtGrows(2 * i + 2, 2 * h, virWidth);
    PlaceGrows(Halves(virWidth, 2), 2 * i, 2 * h - 1);
    PlaceGrows(Halves(virWidth, 2), 2 * i + 1, 2 * h - 1);
    hide At, Place;
  }

  /** The channels follow one another in a circle. */
  function After(k: nat): nat {
    if k < 2 then k + 1 else 0
  }

  function Before(k: nat): nat {
    if k > 0 then k - 1 else 2
  }

  /** Both bytes that a block gives when its first nibble shows channel m. */
  ghost predicate BlockBytesAre(src: seq<Pixel>, virWidth: nat, i: nat, c: nat, m: nat) {
    var f := MosaicPicture(src, virWidth);
    var at, after, before := BlockAverage(src, virWidth, c, i, m), BlockAverage(src, virWidth, c, i, After(m)),
        BlockAverage(src, virWidth, c, i, Before(m));
    f(2 * i, c) == Join(at, after) && f(2 * i + 1, c) == Join(before, at)
  }

  lemma BlockBytes(src: seq<Pixel>, virWidth: nat, i: nat, c: nat, m: nat)
    requires m == (2 * c + i) % 3
    ensures BlockBytesAre(src, virWidth, i, c, m)
  {
    hide BlockAverage, Join, MosaicNibble, MosaicPicture, After, Before;
    NibbleInBlock(src, virWidth, i, c, 0, 0, m);
    NibbleInBlock(src, virWidth, i, c, 1, 0, After(m));
    NibbleInBlock(src, virWidth, i, c, 0, 1, Before(m));
    NibbleInBlock(src, virWidth, i, c, 1, 1, m);
    PictureAt(src, virWidth, 2 * i, c);
    PictureAt(src, virWidth, 2 * i + 1, c);
  }

  lemma PictureAt(src: seq<Pixel>, virWidth: nat, y: nat, c: nat)
    ensures MosaicPicture(src, virWidth)(y, c)
         == Join(MosaicNibble(src, virWidth, 2 * c + 0, y), MosaicNibble(src, virWidth, 2 * c + 1, y))
  {
  }

  lemma NibbleInBlock(src: seq<Pixel>, virWidth: nat, i: nat, c: nat, s: nat, t: nat, k: nat)
    requires s < 2 && t < 2
    requires k == if s == t then (2 * c + i) % 3 else if s == 1 then After((2 * c + i) % 3) else Before((2 * c + i) % 3)
    ensures MosaicNibble(src, virWidth, 2 * c + s, 2 * i + t) == BlockAverage(src, virWidth, c, i, k)
  {
    hide BlockAverage;
    NextPhase(2 * c + i, s, t);
    SameThird(i, 2 * c + i + s + 2 * t);
  }

  lemma NextPhase(n: nat, s: nat, t: nat)
    requires s < 2 && t < 2
    ensures (n + s + 2 * t) % 3 == if s == t then n % 3 else if s == 1 then After(n % 3) else Before(n % 3)
  {
  }

  /** The phases of three successive blocks. */
  lemma Thirds(i: nat, j: nat)
    ensures (2 * (3 * j) + i) % 3 == i % 3
    ensures (2 * (3 * j + 1) + i) % 3 == (i + 2) % 3
    ensures (2 * (3 * j + 2) + i) % 3 == (i + 1) % 3
  {
    SameThird(2 * j, i);
    SameThird(2 * j, i + 2);
    SameThird(2 * j + 1, i + 1);
  }

  lemma SameThird(q: nat, m: nat)
    ensures (3 * q + m) % 3 == m % 3
  {
  }

  /** The four pointers of a pair of rows, at block c. */
  ghost predicate Cursor(virWidth: nat, i: nat, c: nat, s1: nat, s2: nat, d1: nat, d2: nat) {
    && s1 == At(2 * i, virWidth, 2 * c) && s2 == At(2 * i + 1, virWidth, 2 * c)
    && d1 == Place(Halves(virWidth, 2), 2 * i, c) && d2 == Place(Halves(virWidth, 2), 2 * i + 1, c)
  }

  lemma CursorNext(virWidth: nat, i: nat, c: nat, s1: nat, s2: nat, d1: nat, d2: nat)
    requires Cursor(virWidth, i, c, s1, s2, d1, d2)
    ensures Cursor(virWidth, i, c + 1, s1 + 2, s2 + 2, d1 + 1, d2 + 1)
  {
    AtOffset(2 * i, virWidth);
    AtOffset(2 * i + 1, virWidth);
    PlaceOffset(Halves(virWidth, 2), 2 * i);
    PlaceOffset(Halves(virWidth, 2), 2 * i + 1);
    hide At, Place;
  }

  lemma CursorNextThree(virWidth: nat, i: nat, c: nat, s1: nat, s2: nat, d1: nat, d2: nat)
    requires Cursor(virWidth, i, c, s1, s2, d1, d2)
    ensures Cursor(virWidth, i, c + 3, s1 + 6, s2 + 6, d1 + 3, d2 + 3)
  {
    hide Cursor;
    CursorNext(virWidth, i, c, s1, s2, d1, d2);
    CursorNext(virWidth, i, c + 1, s1 + 2, s2 + 2, d1 + 1, d2 + 1);
    CursorNext(virWidth, i, c + 2, s1 + 4, s2 + 4, d1 + 2, d2 + 2);
  }

  // ---- A block, and three blocks ----

  /** The averages of a block: red, green, blue. */
  type Averages = (Pixel, Pixel, Pixel, Pixel) -> (bv32, bv32, bv32)

  /** The macro RGB888_AVG_RGB of the optimised form, without its pointer increments. */
  function MaskedAverages(a: Pixel, b: Pixel, c: Pixel, d: Pixel): (bv32, bv32, bv32) {
    var s := MaskedSum(a, b, c, d);
    ((s >> 4) & 0xf, (s >> 12) & 0xf, (s >> 20) & 0xf)
  }

  /** The original form sums each channel by itself. */
  function ChannelAverages(a: Pixel, b: Pixel, c: Pixel, d: Pixel): (bv32, bv32, bv32) {
    (Quarter((a & 0xf0) >> 4, (b & 0xf0) >> 4, (c & 0xf0) >> 4, (d & 0xf0) >> 4),
     Quarter((a & 0xf000) >> 12, (b & 0xf000) >> 12, (c & 0xf000) >> 12, (d & 0xf000) >> 12),
     Quarter((a & 0xf0_0000) >> 20, (b & 0xf0_0000) >> 20, (c & 0xf0_0000) >> 20, (d & 0xf0_0000) >> 20))
  }

  ghost predicate AveragesAt(avg: Averages, a: Pixel, b: Pixel, c: Pixel, d: Pixel) {
    avg(a, b, c, d) == (Average(a, b, c, d, 0), Average(a, b, c, d, 2), Average(a, b, c, d, 1))
  }

  ghost predicate IsAverage(avg: Averages) {
    forall a, b, c, d :: AveragesAt(avg, a, b, c, d)
  }

  lemma MaskedIsAverage()
    ensures IsAverage(MaskedAverages)
  {
    forall a, b, c, d ensures AveragesAt(MaskedAverages, a, b, c, d) {
      hide MaskedSum, Average;
      RedLane(a, b, c, d);
      GreenLane(a, b, c, d);
      BlueLane(a, b, c, d);
    }
  }

  lemma MaskFirst(p: Pixel)
    ensures (p & 0xf0) >> 4 == Channel(p, 0) && (p & 0xf000) >> 12 == Channel(p, 2)
    ensures (p & 0xf0_0000) >> 20 == Channel(p, 1)
  {
  }

  lemma ChannelsAreAverage()
    ensures IsAverage(ChannelAverages)
  {
    forall a, b, c, d ensures AveragesAt(ChannelAverages, a, b, c, d) {
      hide Channel, Quarter;
      MaskFirst(a);
      MaskFirst(b);
      MaskFirst(c);
      MaskFirst(d);
    }
  }

  /** The averages of the block that the source pointers are at. */
  method AverageRgb(avg: Averages, src: seq<Pixel>, r1: nat, r2: nat, ghost virWidth: nat, ghost i: nat, ghost c: nat,
                    ghost d1: nat, ghost d2: nat, ghost dstLen: nat, ghost h: nat)
    returns (r: bv32, g: bv32, b: bv32)
    requires IsAverage(avg) && Cursor(virWidth, i, c, r1, r2, d1, d2)
    requires Fits(|src|, dstLen, virWidth, h) && i < h && c < Columns(virWidth)
    ensures r == BlockAverage(src, virWidth, c, i, 0)
    ensures b == BlockAverage(src, virWidth, c, i, 1)
    ensures g == BlockAverage(src, virWidth, c, i, 2)
  {
    Inside(|src|, dstLen, virWidth, h, i, c);
    hide Average, At, Place, Fits;
    assert AveragesAt(avg, src[r1], src[r1 + 1], src[r2], src[r2 + 1]);
    var rgb := avg(src[r1], src[r1 + 1], src[r2], src[r2 + 1]);
    r, g, b := rgb.0, rgb.1, rgb.2;
  }

  lemma PaintBoth(before: seq<Byte>, l: Layout, cols: nat, f: Picture, y: nat, c: nat)
    requires c < cols <= Room(l) && Place(l, y, c) < |before| && Place(l, y + 1, c) < |before|
    ensures Painted(before, l, cols, f, y, [c + 1, c + 1])
         == var now := Painted(before, l, cols, f, y, [c, c]);
            now[Place(l, y, c) := f(y, c)][Place(l, y + 1, c) := f(y + 1, c)]
  {
    hide Painted, Place, Room;
    PaintByte(before, l, cols, f, y, [c, c], 0);
    PaintByte(before, l, cols, f, y, [c + 1, c], 1);
    assert [c, c][0 := c + 1] == [c + 1, c] && [c + 1, c][1 := c + 1] == [c + 1, c + 1];
  }

  lemma TwoStores(now: seq<Byte>, srcLen: nat, d1: nat, d2: nat, src: seq<Pixel>, virWidth: nat, before: seq<Byte>,
                  i: nat, c: nat,
                  s1: nat, s2: nat, h: nat)
    requires RowPairAt(src, virWidth, now, before, i, c) && Cursor(virWidth, i, c, s1, s2, d1, d2)
    requires Fits(srcLen, |now|, virWidth, h) && i < h && c < Columns(virWidth)
    ensures d1 < |now| && d2 < |now|
    ensures var f := MosaicPicture(src, virWidth);
            RowPairAt(src, virWidth, now[d1 := f(2 * i, c)][d2 := f(2 * i + 1, c)], before, i, c + 1)
  {
    Inside(srcLen, |now|, virWidth, h, i, c);
    ColumnsFit(virWidth);
    hide Painted, At, Place, Columns, MosaicPicture, Fits;
    PaintBoth(before, Halves(virWidth, 2), Columns(virWidth), MosaicPicture(src, virWidth), 2 * i, c);
  }

  /** The two stores that follow it. */
  method PaintTwo(dst: array<Byte>, d1: nat, d2: nat, v1: Byte, v2: Byte,
                  ghost src: seq<Pixel>, ghost virWidth: nat, ghost before: seq<Byte>, ghost i: nat, ghost c: nat,
                  ghost s1: nat, ghost s2: nat, ghost h: nat)
    requires RowPairAt(src, virWidth, dst[..], before, i, c) && Cursor(virWidth, i, c, s1, s2, d1, d2)
    requires Fits(|src|, dst.Length, virWidth, h) && i < h && c < Columns(virWidth)
    requires v1 == MosaicPicture(src, virWidth)(2 * i, c) && v2 == MosaicPicture(src, virWidth)(2 * i + 1, c)
    modifies dst
    ensures RowPairAt(src, virWidth, dst[..], before, i, c + 1)
  {
    hide RowPairAt, Cursor, Fits, Columns, MosaicPicture;
    ghost var now := dst[..];
    TwoStores(now, |src|, d1, d2, src, virWidth, before, i, c, s1, s2, h);
    dst[d1] := v1;
    dst[d2] := v2;
    assert dst[..] == now[d1 := v1][d2 := v2];
  }

  lemma ColumnsFit(virWidth: nat)
    ensures Columns(virWidth) <= virWidth / 2 && Columns(virWidth) == 3 * (virWidth / 6)
  {
  }

  /** Three blocks of a pair of rows in the filter's first phase: one turn of the inner loop. */
  method FirstPhaseTurn(avg: Averages, dst: array<Byte>, src: seq<Pixel>, d1: nat, d2: nat, s1: nat, s2: nat,
                        ghost virWidth: nat, ghost i: nat, ghost j: nat, ghost before: seq<Byte>, ghost h: nat)
    requires IsAverage(avg)
    requires Fits(|src|, dst.Length, virWidth, h) && i < h && i % 3 == 0 && 3 * j + 3 <= Columns(virWidth)
    requires RowPairAt(src, virWidth, dst[..], before, i, 3 * j) && Cursor(virWidth, i, 3 * j, s1, s2, d1, d2)
    modifies dst
    ensures RowPairAt(src, virWidth, dst[..], before, i, 3 * j + 3)
  {
    hide RowPairAt, Cursor, Fits, Columns, BlockAverage, Join, MosaicPicture, IsAverage;
    Thirds(i, j);
    var r, g, b;
    BlockBytes(src, virWidth, i, 3 * j, 0);
    r, g, b := AverageRgb(avg, src, s1, s2, virWidth, i, 3 * j, d1, d2, dst.Length, h);
    PaintTwo(dst, d1, d2, Join(r, b), Join(g, r), src, virWidth, before, i, 3 * j, s1, s2, h);
    CursorNext(virWidth, i, 3 * j, s1, s2, d1, d2);
    BlockBytes(src, virWidth, i, 3 * j + 1, 2);
    r, g, b := AverageRgb(avg, src, s1 + 2, s2 + 2, virWidth, i, 3 * j + 1, d1 + 1, d2 + 1, dst.Length, h);
    PaintTwo(dst, d1 + 1, d2 + 1, Join(g, r), Join(b, g), src, virWidth, before, i, 3 * j + 1, s1 + 2, s2 + 2, h);
    CursorNext(virWidth, i, 3 * j + 1, s1 + 2, s2 + 2, d1 + 1, d2 + 1);
    BlockBytes(src, virWidth, i, 3 * j + 2, 1);
    r, g, b := AverageRgb(avg, src, s1 + 4, s2 + 4, virWidth, i, 3 * j + 2, d1 + 2, d2 + 2, dst.Length, h);
    PaintTwo(dst, d1 + 2, d2 + 2, Join(b, g), Join(r, b), src, virWidth, before, i, 3 * j + 2, s1 + 4, s2 + 4, h);
  }

  /** Three blocks of a pair of rows in the filter's second phase: one turn of the inner loop. */
  method SecondPhaseTurn(avg: Averages, dst: array<Byte>, src: seq<Pixel>, d1: nat, d2: nat, s1: nat, s2: nat,
                        ghost virWidth: nat, ghost i: nat, ghost j: nat, ghost before: seq<Byte>, ghost h: nat)
    requires IsAverage(avg)
    requires Fits(|src|, dst.Length, virWidth, h) && i < h && i % 3 == 1 && 3 * j + 3 <= Columns(virWidth)
    requires RowPairAt(src, virWidth, dst[..], before, i, 3 * j) && Cursor(virWidth, i, 3 * j, s1, s2, d1, d2)
    modifies dst
    ensures RowPairAt(src, virWidth, dst[..], before, i, 3 * j + 3)
  {
    hide RowPairAt, Cursor, Fits, Columns, BlockAverage, Join, MosaicPicture, IsAverage;
    Thirds(i, j);
    var r, g, b;
    BlockBytes(src, virWidth, i, 3 * j, 1);
    r, g, b := AverageRgb(avg, src, s1, s2, virWidth, i, 3 * j, d1, d2, dst.Length, h);
    PaintTwo(dst, d1, d2, Join(b, g), Join(r, b), src, virWidth, before, i, 3 * j, s1, s2, h);
    CursorNext(virWidth, i, 3 * j, s1, s2, d1, d2);
    BlockBytes(src, virWidth, i, 3 * j + 1, 0);
    r, g, b := AverageRgb(avg, src, s1 + 2, s2 + 2, virWidth, i, 3 * j + 1, d1 + 1, d2 + 1, dst.Length, h);
    PaintTwo(dst, d1 + 1, d2 + 1, Join(r, b), Join(g, r), src, virWidth, before, i, 3 * j + 1, s1 + 2, s2 + 2, h);
    CursorNext(virWidth, i, 3 * j + 1, s1 + 2, s2 + 2, d1 + 1, d2 + 1);
    BlockBytes(src, virWidth, i, 3 * j + 2, 2);
    r, g, b := AverageRgb(avg, src, s1 + 4, s2 + 4, virWidth, i, 3 * j + 2, d1 + 2, d2 + 2, dst.Length, h);
    PaintTwo(dst, d1 + 2, d2 + 2, Join(g, r), Join(b, g), src, virWidth, before, i, 3 * j + 2, s1 + 4, s2 + 4, h);
  }

  /** Three blocks of a pair of rows in the filter's third phase: one turn of the inner loop. */
  method ThirdPhaseTurn(avg: Averages, dst: array<Byte>, src: seq<Pixel>, d1: nat, d2: nat, s1: nat, s2: nat,
                        ghost virWidth: nat, ghost i: nat, ghost j: nat, ghost before: seq<Byte>, ghost h: nat)
    requires IsAverage(avg)
    requires Fits(|src|, dst.Length, virWidth, h) && i < h && i % 3 == 2 && 3 * j + 3 <= Columns(virWidth)
    requires RowPairAt(src, virWidth, dst[..], before, i, 3 * j) && Cursor(virWidth, i, 3 * j, s1, s2, d1, d2)
    modifies dst
    ensures RowPairAt(src, virWidth, dst[..], before, i, 3 * j + 3)
  {
    hide RowPairAt, Cursor, Fits, Columns, BlockAverage, Join, MosaicPicture, IsAverage;
    Thirds(i, j);
    var r, g, b;
    BlockBytes(src, virWidth, i, 3 * j, 2);
    r, g, b := AverageRgb(avg, src, s1, s2, virWidth, i, 3 * j, d1, d2, dst.Length, h);
    PaintTwo(dst, d1, d2, Join(g, r), Join(b, g), src, virWidth, before, i, 3 * j, s1, s2, h);
    CursorNext(virWidth, i, 3 * j, s1, s2, d1, d2);
    BlockBytes(src, virWidth, i, 3 * j + 1, 1);
    r, g, b := AverageRgb(avg, src, s1 + 2, s2 + 2, virWidth, i, 3 * j + 1, d1 + 1, d2 + 1, dst.Length, h);
    PaintTwo(dst, d1 + 1, d2 + 1, Join(b, g), Join(r, b), src, virWidth, before, i, 3 * j + 1, s1 + 2, s2 + 2, h);
    CursorNext(virWidth, i, 3 * j + 1, s1 + 2, s2 + 2, d1 + 1, d2 + 1);
    BlockBytes(src, virWidth, i, 3 * j + 2, 0);
    r, g, b := AverageRgb(avg, src, s1 + 4, s2 + 4, virWidth, i, 3 * j + 2, d1 + 2, d2 + 2, dst.Length, h);
    PaintTwo(dst, d1 + 2, d2 + 2, Join(r, b), Join(g, r), src, virWidth, before, i, 3 * j + 2, s1 + 4, s2 + 4, h);
  }

  // ---- The optimised form ----

  /** One pair of rows: the phase is chosen before the inner loop. */
  method MosaicRowPair(dst: array<Byte>, src: seq<Pixel>, d1: nat, d2: nat, s1: nat, s2: nat, virWidth: nat, i: nat,
                       ghost before: seq<Byte>, ghost h: nat)
    requires Fits(|src|, dst.Length, virWidth, h) && i < h && |before| == dst.Length
    requires dst[..] == MosaicRows(src, virWidth, before, i) && Cursor(virWidth, i, 0, s1, s2, d1, d2)
    modifies dst
    ensures dst[..] == MosaicRows(src, virWidth, before, i + 1)
  {
    var wDiv6 := virWidth / 6;
    MaskedIsAverage();
    RowPairStart(src, virWidth, before, i);
    ColumnsFit(virWidth);
    hide RowPairAt, MosaicRows, Cursor, Columns, IsAverage, MaskedAverages, ChannelAverages;
    var srcR1, srcR2, dstR1, dstR2 := s1, s2, d1, d2;
    if i % 3 == 0 {
      for j := 0 to wDiv6
        invariant RowPairAt(src, virWidth, dst[..], before, i, 3 * j)
        invariant srcR1 == s1 + 6 * j && srcR2 == s2 + 6 * j && dstR1 == d1 + 3 * j && dstR2 == d2 + 3 * j
        invariant Cursor(virWidth, i, 3 * j, srcR1, srcR2, dstR1, dstR2)
      {
        FirstPhaseTurn(MaskedAverages, dst, src, dstR1, dstR2, srcR1, srcR2, virWidth, i, j, before, h);
        CursorNextThree(virWidth, i, 3 * j, srcR1, srcR2, dstR1, dstR2);
        srcR1, srcR2, dstR1, dstR2 := srcR1 + 6, srcR2 + 6, dstR1 + 3, dstR2 + 3;
      }
    } else if i % 3 == 1 {
      for j := 0 to wDiv6
        invariant RowPairAt(src, virWidth, dst[..], before, i, 3 * j)
        invariant srcR1 == s1 + 6 * j && srcR2 == s2 + 6 * j && dstR1 == d1 + 3 * j && dstR2 == d2 + 3 * j
        invariant Cursor(virWidth, i, 3 * j, srcR1, srcR2, dstR1, dstR2)
      {
        SecondPhaseTurn(MaskedAverages, dst, src, dstR1, dstR2, srcR1, srcR2, virWidth, i, j, before, h);
        CursorNextThree(virWidth, i, 3 * j, srcR1, srcR2, dstR1, dstR2);
        srcR1, srcR2, dstR1, dstR2 := srcR1 + 6, srcR2 + 6, dstR1 + 3, dstR2 + 3;
      }
    } else {
      for j := 0 to wDiv6
        invariant RowPairAt(src, virWidth, dst[..], before, i, 3 * j)
        invariant srcR1 == s1 + 6 * j && srcR2 == s2 + 6 * j && dstR1 == d1 + 3 * j && dstR2 == d2 + 3 * j
        invariant Cursor(virWidth, i, 3 * j, srcR1, srcR2, dstR1, dstR2)
      {
        ThirdPhaseTurn(MaskedAverages, dst, src, dstR1, dstR2, srcR1, srcR2, virWidth, i, j, before, h);
        CursorNextThree(virWidth, i, 3 * j, srcR1, srcR2, dstR1, dstR2);
        srcR1, srcR2, dstR1, dstR2 := srcR1 + 6, srcR2 + 6, dstR1 + 3, dstR2 + 3;
      }
    }
    RowPairEnd(src, virWidth, dst[..], before, i);
  }

  /** `Rgb888_to_color_eink2` as it is used. */
  method Rgb888ToColorEink2(dst: array<Byte>, src: seq<Pixel>, fbHeight: nat, virWidth: nat)
    requires Fits(|src|, dst.Length, virWidth, fbHeight / 2)
    modifies dst
    ensures dst[..] == MosaicRows(src, virWidth, old(dst[..]), fbHeight / 2)
  {
    var hDiv2 := fbHeight / 2;
    ghost var before := dst[..];
    NothingYet(src, virWidth, before);
    AtZero(virWidth);
    HalfStart(virWidth, 2, 0, 0);
    hide MosaicRows, Cursor, At, Place;
    var d, s := 0, 0;
    for i := 0 to hDiv2
      invariant s == At(2 * i, virWidth, 0) && d == Place(Halves(virWidth, 2), 2 * i, 0)
      invariant dst[..] == MosaicRows(src, virWidth, before, i)
    {
      CursorStart(virWidth, i, s, d);
      MosaicRowPair(dst, src, d, d + virWidth / 2, s, s + virWidth, virWidth, i, before, hDiv2);
      d := d + virWidth;
      s := s + virWidth * 2;
    }
  }

  lemma CursorStart(virWidth: nat, i: nat, s: nat, d: nat)
    requires s == At(2 * i, virWidth, 0) && d == Place(Halves(virWidth, 2), 2 * i, 0)
    ensures Cursor(virWidth, i, 0, s, s + virWidth, d, d + virWidth / 2)
    ensures At(2 * (i + 1), virWidth, 0) == s + virWidth * 2
    ensures Place(Halves(virWidth, 2), 2 * (i + 1), 0) == d + virWidth
  {
    NextAt(2 * i, virWidth);
    NextAt(2 * i + 1, virWidth);
    HalfStart(virWidth, 2, i, 0);
    HalfStart(virWidth, 2, i, 1);
    HalfStart(virWidth, 2, i + 1, 0);
    hide At, Place;
    assert (i + 1) * 2 * virWidth == i * 2 * virWidth + 2 * virWidth;
  }

  // ---- The original form ----

  /** One pair of rows of the original form: the phase is tested at every turn of the inner loop. */
  method OriginalRowPair(dst: array<Byte>, src: seq<Pixel>, d1: nat, d2: nat, s1: nat, s2: nat, virWidth: nat, i: nat,
                         ghost before: seq<Byte>, ghost h: nat)
    requires Fits(|src|, dst.Length, virWidth, h) && i < h && |before| == dst.Length
    requires dst[..] == MosaicRows(src, virWidth, before, i) && Cursor(virWidth, i, 0, s1, s2, d1, d2)
    modifies dst
    ensures dst[..] == MosaicRows(src, virWidth, before, i + 1)
  {
    ChannelsAreAverage();
    RowPairStart(src, virWidth, before, i);
    ColumnsFit(virWidth);
    hide RowPairAt, MosaicRows, Cursor, Columns, IsAverage, MaskedAverages, ChannelAverages;
    var tempSrc, temp1Src, tempDst, temp1Dst := s1, s2, d1, d2;
    for j := 0 to virWidth / 6
      invariant RowPairAt(src, virWidth, dst[..], before, i, 3 * j)
      invariant tempSrc == s1 + 6 * j && temp1Src == s2 + 6 * j && tempDst == d1 + 3 * j && temp1Dst == d2 + 3 * j
      invariant Cursor(virWidth, i, 3 * j, tempSrc, temp1Src, tempDst, temp1Dst)
    {
      if i % 3 == 0 {
        FirstPhaseTurn(ChannelAverages, dst, src, tempDst, temp1Dst, tempSrc, temp1Src, virWidth, i, j, before, h);
      } else if i % 3 == 1 {
        SecondPhaseTurn(ChannelAverages, dst, src, tempDst, temp1Dst, tempSrc, temp1Src, virWidth, i, j, before, h);
      } else if i % 3 == 2 {
        ThirdPhaseTurn(ChannelAverages, dst, src, tempDst, temp1Dst, tempSrc, temp1Src, virWidth, i, j, before, h);
      }
      CursorNextThree(virWidth, i, 3 * j, tempSrc, temp1Src, tempDst, temp1Dst);
      tempSrc, temp1Src, tempDst, temp1Dst := tempSrc + 6, temp1Src + 6, tempDst + 3, temp1Dst + 3;
    }
    RowPairEnd(src, virWidth, dst[..], before, i);
  }

  /** `Rgb888_to_color_eink2` as it was first written. */
  method OriginalColorEink2(dst: array<Byte>, src: seq<Pixel>, fbHeight: nat, virWidth: nat)
    requires Fits(|src|, dst.Length, virWidth, fbHeight / 2)
    modifies dst
    ensures dst[..] == MosaicRows(src, virWidth, old(dst[..]), fbHeight / 2)
  {
    ghost var before := dst[..];
    NothingYet(src, virWidth, before);
    AtZero(virWidth);
    HalfStart(virWidth, 2, 0, 0);
    hide MosaicRows, Cursor, At, Place;
    var d, s := 0, 0;
    for i := 0 to fbHeight / 2
      invariant s == At(2 * i, virWidth, 0) && d == Place(Halves(virWidth, 2), 2 * i, 0)
      invariant dst[..] == MosaicRows(src, virWidth, before, i)
    {
      CursorStart(virWidth, i, s, d);
      OriginalRowPair(dst, src, d, d + virWidth / 2, s, s + virWidth, virWidth, i, before, fbHeight / 2);
      d := d + virWidth;
      s := s + 2 * virWidth;
    }
  }

  // ---- What the mosaic holds ----

  lemma AverageIsNibble(a: Pixel, b: Pixel, c: Pixel, d: Pixel, k: nat)
    ensures Average(a, b, c, d, k) < 16
  {
  }

  /** Nibble (x, y) of the finished mosaic is the reference's, for every nibble in a complete group of six and a
      complete pair of rows. */
  lemma MosaicHolds(src: seq<Pixel>, virWidth: nat, before: seq<Byte>, h: nat, x: nat, y: nat)
    requires Fits(|src|, |before|, virWidth, h)
    requires x < 6 * (virWidth / 6) && y < 2 * h
    ensures ColourFilter.BlockByte(virWidth, x, y) < |before|
    ensures ColourFilter.BlockAt(virWidth, x, y) + virWidth + 1 < |src|
    ensures ColourFilter.HalfOf(MosaicRows(src, virWidth, before, h)[ColourFilter.BlockByte(virWidth, x, y)], x)
         == ColourFilter.BlockNibble(src, virWidth, x, y)
  {
    hide *;
    Places(|src|, |before|, virWidth, h, x, y);
    RowPlace(virWidth, x, y);
    BlockPlace(virWidth, x, y);
    AverageOfBlock(src, virWidth, x, y);
    var row := Place(Halves(virWidth, 2), y, 0);
    NibbleHolds(src, virWidth, before, h, x, y, row);
    HalfIsNibble(MosaicRows(src, virWidth, before, h), row, x);
  }

  lemma HalfIsNibble(s: seq<Byte>, row: nat, x: nat)
    requires row + x / 2 < |s|
    ensures ColourFilter.HalfOf(s[row + x / 2], x) == NibbleAt(s, row, x)
  {
  }

  lemma NibbleHolds(src: seq<Pixel>, virWidth: nat, before: seq<Byte>, h: nat, x: nat, y: nat, row: nat)
    requires x / 2 < Columns(virWidth) <= virWidth / 2 && y < 2 * h
    requires Place(Halves(virWidth, 2), y, x / 2) == row + x / 2 < |before|
    ensures |MosaicRows(src, virWidth, before, h)| == |before|
    ensures NibbleAt(MosaicRows(src, virWidth, before, h), row, x) == MosaicNibble(src, virWidth, x, y)
  {
    HalfHolds(src, virWidth, before, h, x / 2, y, row);
    hide MosaicNibble, NibbleAt, Place, Columns, Painted;
    assert x == 2 * (x / 2) || x == 2 * (x / 2) + 1;
  }

  lemma RowPlace(virWidth: nat, x: nat, y: nat)
    ensures Place(Halves(virWidth, 2), y, 0) + x / 2 == ColourFilter.BlockByte(virWidth, x, y)
  {
    HalfStart(virWidth, 2, y / 2, y % 2);
    assert y / 2 * 2 + y % 2 == y;
    HalvedPairs(virWidth, y / 2, y % 2);
    hide Place, Halved;
  }

  lemma HalvedPairs(width: nat, q: nat, k: nat)
    requires k < 2
    ensures Halved(q * 2, width) == q * width && Halved(k, width) == k * (width / 2)
  {
    assert q * 2 * width == 2 * (q * width);
  }

  lemma BlockPlace(virWidth: nat, x: nat, y: nat)
    ensures At(2 * (y / 2), virWidth, 2 * (x / 2)) == ColourFilter.BlockAt(virWidth, x, y)
    ensures At(2 * (y / 2) + 1, virWidth, 2 * (x / 2)) == ColourFilter.BlockAt(virWidth, x, y) + virWidth
  {
    NextAt(2 * (y / 2), virWidth);
    AtOffset(2 * (y / 2), virWidth);
    AtOffset(2 * (y / 2) + 1, virWidth);
  }

  lemma AverageOfBlock(src: seq<Pixel>, virWidth: nat, x: nat, y: nat)
    requires ColourFilter.BlockAt(virWidth, x, y) + virWidth + 1 < |src|
    ensures MosaicNibble(src, virWidth, x, y) == ColourFilter.BlockNibble(src, virWidth, x, y)
  {
    var p := ColourFilter.BlockAt(virWidth, x, y);
    BlockPlace(virWidth, x, y);
    BlockAverageIs(src, virWidth, x / 2, y / 2, (x + 2 * y) % 3, p);
    AverageIsMean(src[p], src[p + 1], src[p + virWidth], src[p + virWidth + 1], x + 2 * y);
    hide At, ColourFilter.BlockAt, BlockAverage, Average, ColourFilter.Mean;
  }

  lemma BlockAverageIs(src: seq<Pixel>, width: nat, x: nat, y: nat, k: nat, p: nat)
    requires At(2 * y, width, 2 * x) == p && At(2 * y + 1, width, 2 * x) == p + width && p + width + 1 < |src|
    ensures BlockAverage(src, width, x, y, k) == Average(src[p], src[p + 1], src[p + width], src[p + width + 1], k)
  {
    hide At, Average;
  }

  lemma AverageIsMean(a: Pixel, b: Pixel, c: Pixel, d: Pixel, k: nat)
    ensures Average(a, b, c, d, k % 3) == ColourFilter.Mean(a, b, c, d, k)
  {
    ChannelIsField(a, k);
    ChannelIsField(b, k);
    ChannelIsField(c, k);
    ChannelIsField(d, k);
    hide Channel, ColourFilter.Field;
  }

  lemma ChannelIsField(p: Pixel, k: nat)
    ensures Channel(p, k % 3) == ColourFilter.Field(p, k)
  {
  }

  lemma HalfHolds(src: seq<Pixel>, virWidth: nat, before: seq<Byte>, h: nat, c: nat, y: nat, row: nat)
    requires c < Columns(virWidth) <= virWidth / 2 && y < 2 * h
    requires Place(Halves(virWidth, 2), y, c) == row + c < |before|
    ensures NibbleAt(MosaicRows(src, virWidth, before, h), row, 2 * c) == MosaicNibble(src, virWidth, 2 * c, y)
    ensures NibbleAt(MosaicRows(src, virWidth, before, h), row, 2 * c + 1) == MosaicNibble(src, virWidth, 2 * c + 1, y)
  {
    ByteHolds(src, virWidth, before, h, c, y);
    hide *;
    var even, odd, s := MosaicNibble(src, virWidth, 2 * c, y), MosaicNibble(src, virWidth, 2 * c + 1, y),
        MosaicRows(src, virWidth, before, h);
    NibbleOfJoined(s, row, 2 * c, even, odd);
    NibbleOfJoined(s, row, 2 * c + 1, even, odd);
  }

  lemma ByteHolds(src: seq<Pixel>, virWidth: nat, before: seq<Byte>, h: nat, c: nat, y: nat)
    requires c < Columns(virWidth) <= virWidth / 2 && y < 2 * h
    requires Place(Halves(virWidth, 2), y, c) < |before|
    ensures MosaicRows(src, virWidth, before, h)[Place(Halves(virWidth, 2), y, c)]
         == Join(MosaicNibble(src, virWidth, 2 * c, y), MosaicNibble(src, virWidth, 2 * c + 1, y))
    ensures MosaicNibble(src, virWidth, 2 * c, y) < 16 && MosaicNibble(src, virWidth, 2 * c + 1, y) < 16
  {
    NibbleIsShort(src, virWidth, 2 * c, y);
    NibbleIsShort(src, virWidth, 2 * c + 1, y);
    hide Columns, MosaicNibble, Join, At, Place, Painted;
    PaintedAt(before, Halves(virWidth, 2), Columns(virWidth), MosaicPicture(src, virWidth), 2 * h, y, c);
  }

  lemma Places(srcLen: nat, dstLen: nat, virWidth: nat, h: nat, x: nat, y: nat)
    requires Fits(srcLen, dstLen, virWidth, h)
    requires x < 6 * (virWidth / 6) && y < 2 * h
    ensures x / 2 < Columns(virWidth) <= virWidth / 2
    ensures Place(Halves(virWidth, 2), y, x / 2) == Place(Halves(virWidth, 2), y, 0) + x / 2 < dstLen
    ensures At(2 * (y / 2), virWidth, 2 * (x / 2)) + 1 < srcLen
        && At(2 * (y / 2) + 1, virWidth, 2 * (x / 2)) + 1 < srcLen
  {
    ColumnsFit(virWidth);
    Inside(srcLen, dstLen, virWidth, h, y / 2, x / 2);
    PlaceOffset(Halves(virWidth, 2), y);
    hide At, Place, Fits, Columns;
    assert y == 2 * (y / 2) || y == 2 * (y / 2) + 1;
  }

  lemma NibbleIsShort(src: seq<Pixel>, width: nat, x: nat, y: nat)
    ensures MosaicNibble(src, width, x, y) < 16
  {
    BlockIsShort(src, width, x / 2, y / 2, (x + 2 * y) % 3);
    hide BlockAverage;
  }

  lemma BlockIsShort(src: seq<Pixel>, width: nat, x: nat, y: nat, k: nat)
    ensures BlockAverage(src, width, x, y, k) < 16
  {
    var i, j := At(2 * y, width, 2 * x), At(2 * y + 1, width, 2 * x);
    hide At, Average;
    if j + 1 < |src| && i + 1 < |src| {
      AverageIsNibble(src[i], src[i + 1], src[j], src[j + 1], k);
    }
  }

  /** Every byte that holds no nibble of the mosaic is as it was. */
  lemma MosaicKeeps(src: seq<Pixel>, virWidth: nat, before: seq<Byte>, h: nat, m: nat)
    requires m < |before|
    requires forall x: nat, y: nat :: x < 6 * (virWidth / 6) && y < 2 * h
               ==> ColourFilter.BlockByte(virWidth, x, y) != m
    ensures MosaicRows(src, virWidth, before, h)[m] == before[m]
  {
    var l, cols := Halves(virWidth, 2), Columns(virWidth);
    forall y: nat, c: nat | IsPlace(l, cols, m, y, c) ensures y >= 2 * h {
      RowPlace(virWidth, 2 * c, y);
      PlaceOffset(l, y);
      hide Place, ColourFilter.BlockByte;
    }
    PaintedElsewhere(before, l, cols, MosaicPicture(src, virWidth), 2 * h, m);
  }
}
