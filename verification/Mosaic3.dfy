/** hwcomposer.cpp, `Rgb888_to_color_eink`: the colour filter mosaic at three times the resolution. Every source
    pixel becomes a square of nine nibbles, one channel to a row. */
module Mosaic3 {
  import opened Canvas
  import ColourFilter

  function Red(p: Pixel): bv32 { (p & 0xf0) >> 4 }

  function Green(p: Pixel): bv32 { (p & 0xf000) >> 12 }

  function Blue(p: Pixel): bv32 { (p & 0xf0_0000) >> 20 }

  /** The channels in the order in which the filter repeats them. */
  function FilterChannel(p: Pixel, k: nat): bv32 {
    if k % 3 == 0 then Green(p) else if k % 3 == 1 then Blue(p) else Red(p)
  }

  /** What source pixel x of row i shows in the k-th of its three rows. */
  function Shown(src: seq<Pixel>, width: nat, i: nat, x: nat, k: nat): bv32 {
    if At(i, width, x) < |src| then FilterChannel(src[At(i, width, x)], x + k) else 0
  }

  /** Nibble (x, y) of the expanded picture. */
  function ExpandedNibble(src: seq<Pixel>, width: nat, x: nat, y: nat): bv32 {
    Shown(src, width, y / 3, x / 3, y % 3)
  }

  function ExpandedPicture(src: seq<Pixel>, width: nat): Picture {
    (y: nat, c: nat) => Join(ExpandedNibble(src, width, 2 * c, y), ExpandedNibble(src, width, 2 * c + 1, y))
  }

  /** How many pairs of pixels of a row are expanded: all of them in a row of even width, only the whole groups of
      six in a row of odd width. */
  function Pairs(width: nat): nat {
    if width % 2 == 0 then width / 2 else 3 * (width / 6)
  }

  /** The sizes of the buffers for an image of h rows. */
  ghost predicate Fits(srcLen: nat, dstLen: nat, width: nat, virWidth: nat, h: nat) {
    && 3 * Pairs(width) <= virWidth / 2
    && At(h, width, 0) <= srcLen
    && (h > 0 ==> Place(Halves(virWidth, 3), 3 * h - 1, 0) + 3 * Pairs(width) <= dstLen)
  }

  /** The destination with i source rows expanded. */
  ghost function ExpandedRows(src: seq<Pixel>, width: nat, virWidth: nat, before: seq<Byte>, i: nat): seq<Byte>
  {
    Painted(before, Halves(virWidth, 3), 3 * Pairs(width), ExpandedPicture(src, width), 3 * i, [])
  }

  /** The bytes that some pairs in each of three rows take. */
  function BytesOf(done: seq<nat>): (b: seq<nat>)
    requires |done| == 3
    ensures |b| == 3
  {
    [3 * done[0], 3 * done[1], 3 * done[2]]
  }

  lemma BytesOfNext(done: seq<nat>, k: nat)
    requires |done| == 3 && k < 3
    ensures BytesOf(done)[k] == 3 * done[k]
    ensures BytesOf(done)[k := BytesOf(done)[k] + 3] == BytesOf(done[k := done[k] + 1])
  {
  }

  /** And with some pairs of each of the next three rows. */
  ghost predicate TripleAt(src: seq<Pixel>, width: nat, virWidth: nat, dst: seq<Byte>, before: seq<Byte>, i: nat,
                           done: seq<nat>) {
    && |dst| == |before| && |done| == 3
    && dst == Painted(before, Halves(virWidth, 3), 3 * Pairs(width), ExpandedPicture(src, width), 3 * i,
                      BytesOf(done))
  }

  lemma NothingYet(src: seq<Pixel>, width: nat, virWidth: nat, before: seq<Byte>)
    ensures ExpandedRows(src, width, virWidth, before, 0) == before
  {
    PaintNothing(before, Halves(virWidth, 3), 3 * Pairs(width), ExpandedPicture(src, width), []);
  }

  lemma TripleStart(src: seq<Pixel>, width: nat, virWidth: nat, before: seq<Byte>, i: nat)
    ensures TripleAt(src, width, virWidth, ExpandedRows(src, width, virWidth, before, i), before, i, [0, 0, 0])
  {
    var n: seq<nat> := [];
    PaintRowsDone(before, Halves(virWidth, 3), 3 * Pairs(width), ExpandedPicture(src, width), 3 * i, n, [0, 0, 0]);
  }

  lemma TripleEnd(src: seq<Pixel>, width: nat, virWidth: nat, dst: seq<Byte>, before: seq<Byte>, i: nat)
    requires TripleAt(src, width, virWidth, dst, before, i, [Pairs(width), Pairs(width), Pairs(width)])
    ensures dst == ExpandedRows(src, width, virWidth, before, i + 1)
  {
    var c := 3 * Pairs(width);
    var n: seq<nat> := [];
    PaintRowsDone(before, Halves(virWidth, 3), c, ExpandedPicture(src, width), 3 * i, [c, c, c], n);
  }

  // ---- Where things are ----

  /** Where the k-th row of a triple starts. */
  function RowStart(d: nat, virWidth: nat, k: nat): nat {
    if k == 0 then d else if k == 1 then d + virWidth / 2 else d + virWidth
  }

  ghost predicate Starts(width: nat, virWidth: nat, i: nat, s: nat, d: nat) {
    && s == At(i, width, 0) && d == Place(Halves(virWidth, 3), 3 * i, 0)
    && Place(Halves(virWidth, 3), 3 * i + 1, 0) == RowStart(d, virWidth, 1)
    && Place(Halves(virWidth, 3), 3 * i + 2, 0) == RowStart(d, virWidth, 2)
  }

  lemma StartsOf(width: nat, virWidth: nat, i: nat)
    ensures Starts(width, virWidth, i, i * width, i * 3 * virWidth / 2)
  {
    HalfStart(virWidth, 3, i, 0);
    HalfStart(virWidth, 3, i, 1);
    HalfStart(virWidth, 3, i, 2);
    hide Place;
  }

  /** The three bytes of pair p in row k of triple i lie inside the destination. */
  lemma InsideRow(srcLen: nat, dstLen: nat, width: nat, virWidth: nat, h: nat, i: nat, k: nat, p: nat)
    requires Fits(srcLen, dstLen, width, virWidth, h) && i < h && k < 3 && p < Pairs(width)
    ensures Place(Halves(virWidth, 3), 3 * i + k, 3 * p) == Place(Halves(virWidth, 3), 3 * i + k, 0) + 3 * p
    ensures Place(Halves(virWidth, 3), 3 * i + k, 3 * p) + 3 <= dstLen
    ensures 3 * p + 3 <= 3 * Pairs(width) <= Room(Halves(virWidth, 3))
  {
    PlaceGrows(Halves(virWidth, 3), 3 * i + k, 3 * h - 1);
    PlaceOffset(Halves(virWidth, 3), 3 * i + k);
    hide At, Place;
  }

  lemma InsideSource(srcLen: nat, dstLen: nat, width: nat, virWidth: nat, h: nat, i: nat, x: nat)
    requires Fits(srcLen, dstLen, width, virWidth, h) && i < h && x < width
    ensures At(i, width, x) == At(i, width, 0) + x < srcLen
  {
    AtOffset(i, width);
    NextAt(i, width);
    AtGrows(i + 1, h, width);
    hide At, Place;
  }

  // ---- What three bytes show ----

  lemma PairBytes(src: seq<Pixel>, width: nat, i: nat, k: nat, p: nat)
    requires k < 3
    ensures var a, b := Shown(src, width, i, 2 * p, k), Shown(src, width, i, 2 * p + 1, k);
            Stretch(ExpandedPicture(src, width), 3 * i + k, 3 * p, 3) == [Join(a, a), Join(a, b), Join(b, b)]
  {
    hide Shown, Join;
    var f := ExpandedPicture(src, width);
    assert (3 * i + k) / 3 == i && (3 * i + k) % 3 == k;
    assert (2 * (3 * p)) / 3 == 2 * p && (2 * (3 * p) + 1) / 3 == 2 * p;
    assert (2 * (3 * p + 1)) / 3 == 2 * p && (2 * (3 * p + 1) + 1) / 3 == 2 * p + 1;
    assert (2 * (3 * p + 2)) / 3 == 2 * p + 1 && (2 * (3 * p + 2) + 1) / 3 == 2 * p + 1;
    assert Stretch(f, 3 * i + k, 3 * p, 3) == [f(3 * i + k, 3 * p), f(3 * i + k, 3 * p + 1), f(3 * i + k, 3 * p + 2)];
  }

  // ---- Three bytes ----

  lemma PaintTriple(before: seq<Byte>, l: Layout, cols: nat, f: Picture, full: nat, done: seq<nat>, k: nat)
    requires |done| == 3 && k < 3 && 3 * done[k] + 3 <= cols <= Room(l)
    requires Place(l, full + k, 3 * done[k]) + 3 <= |before|
    ensures Painted(before, l, cols, f, full, BytesOf(done[k := done[k] + 1]))
         == Splice(Painted(before, l, cols, f, full, BytesOf(done)), Place(l, full + k, 3 * done[k]),
                   Stretch(f, full + k, 3 * done[k], 3))
  {
    BytesOfNext(done, k);
    hide *;
    PaintStretch(before, l, cols, f, full, BytesOf(done), k, 3);
  }

  lemma ThreeStores(now: seq<Byte>, src: seq<Pixel>, width: nat, virWidth: nat, before: seq<Byte>, h: nat, i: nat,
                    done: seq<nat>, k: nat)
    requires TripleAt(src, width, virWidth, now, before, i, done) && k < 3 && i < h
    requires Fits(|src|, |now|, width, virWidth, h) && done[k] < Pairs(width)
    ensures Place(Halves(virWidth, 3), 3 * i + k, 3 * done[k]) + 3 <= |now|
    ensures var a, b := Shown(src, width, i, 2 * done[k], k), Shown(src, width, i, 2 * done[k] + 1, k);
            TripleAt(src, width, virWidth, Splice(now, Place(Halves(virWidth, 3), 3 * i + k, 3 * done[k]),
                                                  [Join(a, a), Join(a, b), Join(b, b)]),
                     before, i, done[k := done[k] + 1])
  {
    InsideRow(|src|, |now|, width, virWidth, h, i, k, done[k]);
    PairBytes(src, width, i, k, done[k]);
    hide Painted, At, Place, Room, Fits, Shown, Join, ExpandedPicture, Stretch, Pairs, BytesOf, Splice;
    PaintTriple(before, Halves(virWidth, 3), 3 * Pairs(width), ExpandedPicture(src, width), 3 * i, done, k);
  }

  lemma PairPlace(width: nat, virWidth: nat, i: nat, s: nat, d: nat, k: nat, p: nat)
    requires Starts(width, virWidth, i, s, d) && k < 3
    ensures RowStart(d, virWidth, k) + 3 * p == Place(Halves(virWidth, 3), 3 * i + k, 3 * p)
  {
    PlaceOffset(Halves(virWidth, 3), 3 * i + k);
    hide At, Place;
  }

  method StoreThree(dst: array<Byte>, at: nat, u: Byte, v: Byte, w: Byte)
    requires at + 3 <= dst.Length
    modifies dst
    ensures dst[..] == Splice(old(dst[..]), at, [u, v, w])
  {
    dst[at] := u;
    dst[at + 1] := v;
    dst[at + 2] := w;
  }

  /** The three stores that two pixels cause in one row. */
  method PutThree(dst: array<Byte>, at: nat, a: bv32, b: bv32,
                  ghost src: seq<Pixel>, ghost width: nat, ghost virWidth: nat, ghost before: seq<Byte>, ghost h: nat,
                  ghost i: nat, ghost s: nat, ghost d: nat, ghost done: seq<nat>, ghost k: nat)
    requires TripleAt(src, width, virWidth, dst[..], before, i, done) && Starts(width, virWidth, i, s, d)
    requires Fits(|src|, dst.Length, width, virWidth, h) && i < h && k < 3 && |done| == 3 && done[k] < Pairs(width)
    requires at == RowStart(d, virWidth, k) + 3 * done[k]
    requires a == Shown(src, width, i, 2 * done[k], k) && b == Shown(src, width, i, 2 * done[k] + 1, k)
    modifies dst
    ensures TripleAt(src, width, virWidth, dst[..], before, i, done[k := done[k] + 1])
  {
    PairPlace(width, virWidth, i, s, d, k, done[k]);
    hide *;
    ghost var now := dst[..];
    ThreeStores(now, src, width, virWidth, before, h, i, done, k);
    StoreThree(dst, at, Join(a, a), Join(a, b), Join(b, b));
  }

  // ---- A row of pixels ----

  /** Where the loops of a row are: the buffers fit, the row is one of the image's, and its starts are known. */
  ghost predicate InRow(srcLen: nat, dstLen: nat, width: nat, virWidth: nat, h: nat, i: nat, s: nat, d: nat) {
    Fits(srcLen, dstLen, width, virWidth, h) && i < h && Starts(width, virWidth, i, s, d)
  }

  /** What n = 2, 4 or 6 pixels from x on show in row k. */
  ghost predicate RowShows(src: seq<Pixel>, width: nat, i: nat, x: nat, k: nat, v: seq<bv32>) {
    forall t :: 0 <= t < |v| ==> v[t] == Shown(src, width, i, x + t, k)
  }

  /** The three stores of pair p in row k of a triple. */
  method PutPair(dst: array<Byte>, at: nat, a: bv32, b: bv32,
                 ghost src: seq<Pixel>, ghost width: nat, ghost virWidth: nat, ghost before: seq<Byte>, ghost h: nat,
                 ghost i: nat, ghost s: nat, ghost d: nat, ghost done: seq<nat>, ghost k: nat, ghost p: nat)
    requires TripleAt(src, width, virWidth, dst[..], before, i, done)
    requires InRow(|src|, dst.Length, width, virWidth, h, i, s, d)
    requires |done| == 3 && k < 3 && done[k] == p < Pairs(width)
    requires at == RowStart(d, virWidth, k) + 3 * p
    requires RowShows(src, width, i, 2 * p, k, [a, b])
    modifies dst
    ensures TripleAt(src, width, virWidth, dst[..], before, i, done[k := p + 1])
  {
    assert [a, b][0] == Shown(src, width, i, 2 * p + 0, k) && [a, b][1] == Shown(src, width, i, 2 * p + 1, k);
    hide TripleAt, Fits, Starts, Shown, RowStart, RowShows;
    PutThree(dst, at, a, b, src, width, virWidth, before, h, i, s, d, done, k);
  }

  lemma TwoOfFour(src: seq<Pixel>, width: nat, i: nat, p: nat, k: nat, a: bv32, b: bv32, c: bv32, e: bv32)
    requires RowShows(src, width, i, 2 * p, k, [a, b, c, e])
    ensures RowShows(src, width, i, 2 * p, k, [a, b]) && RowShows(src, width, i, 2 * (p + 1), k, [c, e])
  {
    hide *;
    PartShows(src, width, i, 2 * p, k, [a, b, c, e], 0, [a, b]);
    PartShows(src, width, i, 2 * p, k, [a, b, c, e], 2, [c, e]);
    assert 2 * (p + 1) == 2 * p + 2;
  }

  lemma TwoOfSix(src: seq<Pixel>, width: nat, i: nat, p: nat, k: nat, a: bv32, b: bv32, c: bv32, e: bv32, f: bv32,
                 g: bv32)
    requires RowShows(src, width, i, 2 * p, k, [a, b, c, e, f, g])
    ensures RowShows(src, width, i, 2 * p, k, [a, b]) && RowShows(src, width, i, 2 * (p + 1), k, [c, e, f, g])
  {
    hide *;
    PartShows(src, width, i, 2 * p, k, [a, b, c, e, f, g], 0, [a, b]);
    PartShows(src, width, i, 2 * p, k, [a, b, c, e, f, g], 2, [c, e, f, g]);
    assert 2 * (p + 1) == 2 * p + 2;
  }

  lemma PartShows(src: seq<Pixel>, width: nat, i: nat, x: nat, k: nat, v: seq<bv32>, m: nat, u: seq<bv32>)
    requires RowShows(src, width, i, x, k, v) && m + |u| <= |v| && v[m..m + |u|] == u
    ensures RowShows(src, width, i, x + m, k, u)
  {
    hide Shown;
    forall t | 0 <= t < |u| ensures u[t] == Shown(src, width, i, x + m + t, k) {
      assert u[t] == v[m + t];
    }
  }

  lemma Again(done: seq<nat>, k: nat, n: nat, m: nat)
    requires k < |done|
    ensures done[k := n][k := m] == done[k := m]
  {
  }

  /** Six bytes of row k, for four pixels. */
  method PutTwoPairs(dst: array<Byte>, at: nat, a: bv32, b: bv32, c: bv32, e: bv32,
                     ghost src: seq<Pixel>, ghost width: nat, ghost virWidth: nat, ghost before: seq<Byte>,
                     ghost h: nat, ghost i: nat, ghost s: nat, ghost d: nat, ghost done: seq<nat>, ghost k: nat,
                     ghost p: nat)
    requires TripleAt(src, width, virWidth, dst[..], before, i, done)
    requires InRow(|src|, dst.Length, width, virWidth, h, i, s, d)
    requires |done| == 3 && k < 3 && done[k] == p && p + 2 <= Pairs(width)
    requires at == RowStart(d, virWidth, k) + 3 * p
    requires RowShows(src, width, i, 2 * p, k, [a, b, c, e])
    modifies dst
    ensures TripleAt(src, width, virWidth, dst[..], before, i, done[k := p + 2])
  {
    TwoOfFour(src, width, i, p, k, a, b, c, e);
    Again(done, k, p + 1, p + 2);
    hide *;
    PutPair(dst, at, a, b, src, width, virWidth, before, h, i, s, d, done, k, p);
    PutPair(dst, at + 3, c, e, src, width, virWidth, before, h, i, s, d, done[k := p + 1], k, p + 1);
  }

  /** Nine bytes of row k, for six pixels. */
  method PutThreePairs(dst: array<Byte>, at: nat, a: bv32, b: bv32, c: bv32, e: bv32, f: bv32, g: bv32,
                       ghost src: seq<Pixel>, ghost width: nat, ghost virWidth: nat, ghost before: seq<Byte>,
                       ghost h: nat, ghost i: nat, ghost s: nat, ghost d: nat, ghost done: seq<nat>, ghost k: nat,
                      ghost p: nat)
    requires TripleAt(src, width, virWidth, dst[..], before, i, done)
    requires InRow(|src|, dst.Length, width, virWidth, h, i, s, d)
    requires |done| == 3 && k < 3 && done[k] == p && p + 3 <= Pairs(width)
    requires at == RowStart(d, virWidth, k) + 3 * p
    requires RowShows(src, width, i, 2 * p, k, [a, b, c, e, f, g])
    modifies dst
    ensures TripleAt(src, width, virWidth, dst[..], before, i, done[k := p + 3])
  {
    TwoOfSix(src, width, i, p, k, a, b, c, e, f, g);
    Again(done, k, p + 1, p + 3);
    hide *;
    PutPair(dst, at, a, b, src, width, virWidth, before, h, i, s, d, done, k, p);
    PutTwoPairs(dst, at + 3, c, e, f, g, src, width, virWidth, before, h, i, s, d, done[k := p + 1], k, p + 1);
  }

  /** What pixels in step with the filter show in row k. */
  function Filtered(pixels: seq<Pixel>, k: nat): (v: seq<bv32>)
    ensures |v| == |pixels|
  {
    seq(|pixels|, t requires 0 <= t < |pixels| => FilterChannel(pixels[t], t + k))
  }

  lemma FilterTurns(p: Pixel)
    ensures FilterChannel(p, 0) == FilterChannel(p, 3) == FilterChannel(p, 6) == Green(p)
    ensures FilterChannel(p, 1) == FilterChannel(p, 4) == FilterChannel(p, 7) == Blue(p)
    ensures FilterChannel(p, 2) == FilterChannel(p, 5) == Red(p)
  {
    hide Red, Green, Blue;
  }

  lemma SixFiltered(v: seq<Pixel>)
    requires |v| == 6
    ensures Filtered(v, 0) == [Green(v[0]), Blue(v[1]), Red(v[2]), Green(v[3]), Blue(v[4]), Red(v[5])]
    ensures Filtered(v, 1) == [Blue(v[0]), Red(v[1]), Green(v[2]), Blue(v[3]), Red(v[4]), Green(v[5])]
    ensures Filtered(v, 2) == [Red(v[0]), Green(v[1]), Blue(v[2]), Red(v[3]), Green(v[4]), Blue(v[5])]
  {
    hide Red, Green, Blue, FilterChannel, Filtered;
    SixFilteredInRow(v, 0);
    SixFilteredInRow(v, 1);
    SixFilteredInRow(v, 2);
    FilterTurns(v[0]);
    FilterTurns(v[1]);
    FilterTurns(v[2]);
    FilterTurns(v[3]);
    FilterTurns(v[4]);
    FilterTurns(v[5]);
  }

  lemma SixFilteredInRow(v: seq<Pixel>, k: nat)
    requires |v| == 6
    ensures Filtered(v, k) == [FilterChannel(v[0], k), FilterChannel(v[1], 1 + k), FilterChannel(v[2], 2 + k),
                               FilterChannel(v[3], 3 + k), FilterChannel(v[4], 4 + k), FilterChannel(v[5], 5 + k)]
  {
    hide FilterChannel;
  }

  lemma FourFiltered(v: seq<Pixel>)
    requires |v| == 4
    ensures Filtered(v, 0) == [Green(v[0]), Blue(v[1]), Red(v[2]), Green(v[3])]
    ensures Filtered(v, 1) == [Blue(v[0]), Red(v[1]), Green(v[2]), Blue(v[3])]
    ensures Filtered(v, 2) == [Red(v[0]), Green(v[1]), Blue(v[2]), Red(v[3])]
  {
    hide Red, Green, Blue, FilterChannel, Filtered;
    FourFilteredInRow(v, 0);
    FourFilteredInRow(v, 1);
    FourFilteredInRow(v, 2);
    FilterTurns(v[0]);
    FilterTurns(v[1]);
    FilterTurns(v[2]);
    FilterTurns(v[3]);
  }

  lemma FourFilteredInRow(v: seq<Pixel>, k: nat)
    requires |v| == 4
    ensures Filtered(v, k) == [FilterChannel(v[0], k), FilterChannel(v[1], 1 + k), FilterChannel(v[2], 2 + k),
                               FilterChannel(v[3], 3 + k)]
  {
    hide FilterChannel;
  }

  lemma TwoFiltered(v: seq<Pixel>)
    requires |v| == 2
    ensures Filtered(v, 0) == [Green(v[0]), Blue(v[1])]
    ensures Filtered(v, 1) == [Blue(v[0]), Red(v[1])]
    ensures Filtered(v, 2) == [Red(v[0]), Green(v[1])]
  {
    hide Red, Green, Blue, FilterChannel, Filtered;
    TwoFilteredInRow(v, 0);
    TwoFilteredInRow(v, 1);
    TwoFilteredInRow(v, 2);
    FilterTurns(v[0]);
    FilterTurns(v[1]);
  }

  lemma TwoFilteredInRow(v: seq<Pixel>, k: nat)
    requires |v| == 2
    ensures Filtered(v, k) == [FilterChannel(v[0], k), FilterChannel(v[1], 1 + k)]
  {
    hide FilterChannel;
  }

  lemma SameChannel(p: Pixel, k: nat, j: nat)
    ensures FilterChannel(p, 6 * j + k) == FilterChannel(p, k)
  {
    assert (6 * j + k) % 3 == k % 3;
  }

  /** n pixels from 6j on can be read, and show the same as if the row started with them. */
  lemma GroupShows(src: seq<Pixel>, dstLen: nat, width: nat, virWidth: nat, h: nat, i: nat, s: nat, d: nat, j: nat,
                   n: nat, k: nat)
    requires InRow(|src|, dstLen, width, virWidth, h, i, s, d) && 6 * j + n <= width && 0 < n
    ensures s + 6 * j + n <= |src|
    ensures RowShows(src, width, i, 6 * j, k, Filtered(src[s + 6 * j..s + 6 * j + n], k))
  {
    hide Fits, FilterChannel, At, Place;
    InsideSource(|src|, dstLen, width, virWidth, h, i, 6 * j + n - 1);
    var pixels := src[s + 6 * j..s + 6 * j + n];
    forall t | 0 <= t < n ensures Filtered(pixels, k)[t] == Shown(src, width, i, 6 * j + t, k) {
      InsideSource(|src|, dstLen, width, virWidth, h, i, 6 * j + t);
      SameChannel(pixels[t], t + k, j);
      assert 6 * j + t + k == 6 * j + (t + k);
    }
  }

  lemma PairsFit(width: nat, j: nat)
    ensures j < width / 6 ==> 6 * j + 6 <= width && 3 * j + 3 <= Pairs(width)
    ensures width % 6 == 4 ==> 6 * (width / 6) + 4 == width && 3 * (width / 6) + 2 == Pairs(width)
    ensures width % 6 == 2 ==> 6 * (width / 6) + 2 == width && 3 * (width / 6) + 1 == Pairs(width)
    ensures width % 6 != 4 && width % 6 != 2 ==> 3 * (width / 6) == Pairs(width)
  {
  }

  /** Six pixels: one turn of the inner loop. */
  method SixPixels(dst: array<Byte>, src: seq<Pixel>, s: nat, d: nat, width: nat, virWidth: nat, j: nat,
                   ghost before: seq<Byte>, ghost h: nat, ghost i: nat)
    requires TripleAt(src, width, virWidth, dst[..], before, i, [3 * j, 3 * j, 3 * j])
    requires InRow(|src|, dst.Length, width, virWidth, h, i, s, d) && j < width / 6
    modifies dst
    ensures TripleAt(src, width, virWidth, dst[..], before, i, [3 * j + 3, 3 * j + 3, 3 * j + 3])
  {
    PairsFit(width, j);
    hide TripleAt, InRow, RowShows, Pairs, Red, Green, Blue, Filtered;
    GroupShows(src, dst.Length, width, virWidth, h, i, s, d, j, 6, 0);
    GroupShows(src, dst.Length, width, virWidth, h, i, s, d, j, 6, 1);
    GroupShows(src, dst.Length, width, virWidth, h, i, s, d, j, 6, 2);
    var at := s + 6 * j;
    SixFiltered(src[at..at + 6]);
    var p1, p2, p3, p4, p5, p6 := src[at], src[at + 1], src[at + 2], src[at + 3], src[at + 4], src[at + 5];
    ghost var p := 3 * j;
    assert [p, p, p][0 := p + 3] == [p + 3, p, p];
    assert [p + 3, p, p][1 := p + 3] == [p + 3, p + 3, p];
    assert [p + 3, p + 3, p][2 := p + 3] == [p + 3, p + 3, p + 3];
    PutThreePairs(dst, d + j * 9, Green(p1), Blue(p2), Red(p3), Green(p4), Blue(p5), Red(p6),
                  src, width, virWidth, before, h, i, s, d, [p, p, p], 0, p);
    PutThreePairs(dst, d + virWidth / 2 + j * 9, Blue(p1), Red(p2), Green(p3), Blue(p4), Red(p5), Green(p6),
                  src, width, virWidth, before, h, i, s, d, [p + 3, p, p], 1, p);
    PutThreePairs(dst, d + virWidth + j * 9, Red(p1), Green(p2), Blue(p3), Red(p4), Green(p5), Blue(p6),
                  src, width, virWidth, before, h, i, s, d, [p + 3, p + 3, p], 2, p);
  }

  /** The four pixels left over when the width is 4 more than a multiple of 6. */
  method FourPixels(dst: array<Byte>, src: seq<Pixel>, s: nat, d: nat, width: nat, virWidth: nat, j: nat,
                    ghost before: seq<Byte>, ghost h: nat, ghost i: nat)
    requires TripleAt(src, width, virWidth, dst[..], before, i, [3 * j, 3 * j, 3 * j])
    requires InRow(|src|, dst.Length, width, virWidth, h, i, s, d) && j == width / 6 && width % 6 == 4
    modifies dst
    ensures TripleAt(src, width, virWidth, dst[..], before, i, [3 * j + 2, 3 * j + 2, 3 * j + 2])
  {
    PairsFit(width, j);
    hide TripleAt, InRow, RowShows, Pairs, Red, Green, Blue, Filtered;
    GroupShows(src, dst.Length, width, virWidth, h, i, s, d, j, 4, 0);
    GroupShows(src, dst.Length, width, virWidth, h, i, s, d, j, 4, 1);
    GroupShows(src, dst.Length, width, virWidth, h, i, s, d, j, 4, 2);
    var at := s + 6 * j;
    FourFiltered(src[at..at + 4]);
    var p1, p2, p3, p4 := src[at], src[at + 1], src[at + 2], src[at + 3];
    ghost var p := 3 * j;
    assert [p, p, p][0 := p + 2] == [p + 2, p, p];
    assert [p + 2, p, p][1 := p + 2] == [p + 2, p + 2, p];
    assert [p + 2, p + 2, p][2 := p + 2] == [p + 2, p + 2, p + 2];
    PutTwoPairs(dst, d + j * 9, Green(p1), Blue(p2), Red(p3), Green(p4),
                src, width, virWidth, before, h, i, s, d, [p, p, p], 0, p);
    PutTwoPairs(dst, d + virWidth / 2 + j * 9, Blue(p1), Red(p2), Green(p3), Blue(p4),
                src, width, virWidth, before, h, i, s, d, [p + 2, p, p], 1, p);
    PutTwoPairs(dst, d + virWidth + j * 9, Red(p1), Green(p2), Blue(p3), Red(p4),
                src, width, virWidth, before, h, i, s, d, [p + 2, p + 2, p], 2, p);
  }

  /** The two pixels left over when the width is 2 more than a multiple of 6. */
  method TwoPixels(dst: array<Byte>, src: seq<Pixel>, s: nat, d: nat, width: nat, virWidth: nat, j: nat,
                   ghost before: seq<Byte>, ghost h: nat, ghost i: nat)
    requires TripleAt(src, width, virWidth, dst[..], before, i, [3 * j, 3 * j, 3 * j])
    requires InRow(|src|, dst.Length, width, virWidth, h, i, s, d) && j == width / 6 && width % 6 == 2
    modifies dst
    ensures TripleAt(src, width, virWidth, dst[..], before, i, [3 * j + 1, 3 * j + 1, 3 * j + 1])
  {
    PairsFit(width, j);
    hide TripleAt, InRow, RowShows, Pairs, Red, Green, Blue, Filtered;
    GroupShows(src, dst.Length, width, virWidth, h, i, s, d, j, 2, 0);
    GroupShows(src, dst.Length, width, virWidth, h, i, s, d, j, 2, 1);
    GroupShows(src, dst.Length, width, virWidth, h, i, s, d, j, 2, 2);
    var at := s + 6 * j;
    TwoFiltered(src[at..at + 2]);
    var p1, p2 := src[at], src[at + 1];
    ghost var p := 3 * j;
    assert [p, p, p][0 := p + 1] == [p + 1, p, p];
    assert [p + 1, p, p][1 := p + 1] == [p + 1, p + 1, p];
    assert [p + 1, p + 1, p][2 := p + 1] == [p + 1, p + 1, p + 1];
    PutPair(dst, d + j * 9, Green(p1), Blue(p2), src, width, virWidth, before, h, i, s, d, [p, p, p], 0, p);
    PutPair(dst, d + virWidth / 2 + j * 9, Blue(p1), Red(p2), src, width, virWidth, before, h, i, s, d, [p + 1, p, p],
            1, p);
    PutPair(dst, d + virWidth + j * 9, Red(p1), Green(p2), src, width, virWidth, before, h, i, s, d, [p + 1, p + 1, p],
            2, p);
  }

  /** One source row: the groups of six, then what is left over. */
  method ExpandRow(dst: array<Byte>, src: seq<Pixel>, s: nat, d: nat, width: nat, virWidth: nat,
                   ghost before: seq<Byte>, ghost h: nat, ghost i: nat)
    requires |before| == dst.Length && dst[..] == ExpandedRows(src, width, virWidth, before, i)
    requires InRow(|src|, dst.Length, width, virWidth, h, i, s, d)
    modifies dst
    ensures dst[..] == ExpandedRows(src, width, virWidth, before, i + 1)
  {
    var dstDep := width % 6;
    TripleStart(src, width, virWidth, before, i);
    PairsFit(width, 0);
    hide TripleAt, InRow, Pairs, ExpandedRows;
    for j := 0 to width / 6
      invariant TripleAt(src, width, virWidth, dst[..], before, i, [3 * j, 3 * j, 3 * j])
    {
      SixPixels(dst, src, s, d, width, virWidth, j, before, h, i);
    }
    var j := width / 6;
    if dstDep == 4 {
      FourPixels(dst, src, s, d, width, virWidth, j, before, h, i);
    } else if dstDep == 2 {
      TwoPixels(dst, src, s, d, width, virWidth, j, before, h, i);
    }
    TripleEnd(src, width, virWidth, dst[..], before, i);
  }

  /** `Rgb888_to_color_eink`. */
  method Rgb888ToColorEink(dst: array<Byte>, src: seq<Pixel>, fbHeight: nat, fbWidth: nat, virWidth: nat)
    requires Fits(|src|, dst.Length, fbWidth, virWidth, fbHeight)
    modifies dst
    ensures dst[..] == ExpandedRows(src, fbWidth, virWidth, old(dst[..]), fbHeight)
  {
    ghost var before := dst[..];
    NothingYet(src, fbWidth, virWidth, before);
    for i := 0 to fbHeight
      invariant dst[..] == ExpandedRows(src, fbWidth, virWidth, before, i)
    {
      StartsOf(fbWidth, virWidth, i);
      hide ExpandedRows, Starts, At, Place;
      ExpandRow(dst, src, i * fbWidth, i * 3 * virWidth / 2, fbWidth, virWidth, before, fbHeight, i);
    }
  }

  // ---- What the expansion holds ----

  lemma ChannelIsNibble(p: Pixel, k: nat)
    ensures FilterChannel(p, k) < 16
  {
  }

  lemma ShownIsNibble(src: seq<Pixel>, width: nat, i: nat, x: nat, k: nat)
    ensures Shown(src, width, i, x, k) < 16
  {
    var at := At(i, width, x);
    hide FilterChannel;
    if at < |src| {
      ChannelIsNibble(src[at], x + k);
    }
  }

  lemma ByteHolds(src: seq<Pixel>, width: nat, virWidth: nat, before: seq<Byte>, h: nat, c: nat, y: nat)
    requires c < 3 * Pairs(width) <= virWidth / 2 && y < 3 * h
    requires Place(Halves(virWidth, 3), y, c) < |before|
    ensures ExpandedRows(src, width, virWidth, before, h)[Place(Halves(virWidth, 3), y, c)]
         == Join(ExpandedNibble(src, width, 2 * c, y), ExpandedNibble(src, width, 2 * c + 1, y))
    ensures ExpandedNibble(src, width, 2 * c, y) < 16 && ExpandedNibble(src, width, 2 * c + 1, y) < 16
  {
    ShownIsNibble(src, width, y / 3, 2 * c / 3, y % 3);
    ShownIsNibble(src, width, y / 3, (2 * c + 1) / 3, y % 3);
    hide Pairs, Shown, Join, At, Place, Painted;
    PaintedAt(before, Halves(virWidth, 3), 3 * Pairs(width), ExpandedPicture(src, width), 3 * h, y, c);
  }

  lemma Places(srcLen: nat, dstLen: nat, width: nat, virWidth: nat, h: nat, x: nat, y: nat)
    requires Fits(srcLen, dstLen, width, virWidth, h)
    requires x < 6 * Pairs(width) && y < 3 * h
    ensures x / 2 < 3 * Pairs(width) <= virWidth / 2
    ensures Place(Halves(virWidth, 3), y, x / 2) == Place(Halves(virWidth, 3), y, 0) + x / 2 < dstLen
    ensures At(y / 3, width, x / 3) < srcLen
  {
    assert 2 * Pairs(width) <= width;
    InsideRow(srcLen, dstLen, width, virWidth, h, y / 3, y % 3, x / 6);
    InsideSource(srcLen, dstLen, width, virWidth, h, y / 3, x / 3);
    PlaceOffset(Halves(virWidth, 3), y);
    hide At, Place, Fits, Pairs;
    assert x / 2 <= 3 * (x / 6) + 2;
    assert y == 3 * (y / 3) + y % 3;
  }

  /** Nibble (x, y) of the finished picture is the reference's, for every nibble of the pairs that are expanded. */
  lemma ExpansionHolds(src: seq<Pixel>, width: nat, virWidth: nat, before: seq<Byte>, h: nat, x: nat, y: nat)
    requires Fits(|src|, |before|, width, virWidth, h)
    requires x < 3 * (if width % 2 == 0 then width else 6 * (width / 6)) && y < 3 * h
    ensures ColourFilter.PixelByte(virWidth, x, y) < |before| && ColourFilter.PixelAt(width, x, y) < |src|
    ensures var bytes, m := ExpandedRows(src, width, virWidth, before, h), ColourFilter.PixelByte(virWidth, x, y);
            ColourFilter.HalfOf(bytes[m], x) == ColourFilter.PixelNibble(src, width, x, y)
  {
    PairsAre(width);
    Places(|src|, |before|, width, virWidth, h, x, y);
    RowPlace(virWidth, x, y);
    PixelPlace(src, width, x, y);
    hide Pairs, ExpandedNibble, ExpandedRows, Join, Place, At, FilterChannel, Fits, ColourFilter.PixelByte,
         ColourFilter.PixelAt, ColourFilter.PixelNibble;
    ByteHolds(src, width, virWidth, before, h, x / 2, y);
    NibbleOfJoined(ExpandedRows(src, width, virWidth, before, h), Place(Halves(virWidth, 3), y, 0), x,
                   ExpandedNibble(src, width, 2 * (x / 2), y), ExpandedNibble(src, width, 2 * (x / 2) + 1, y));
  }

  /** All pixels of a row of even width are expanded; of a row of odd width, those in whole groups of six. */
  lemma PairsAre(width: nat)
    ensures 2 * Pairs(width) == if width % 2 == 0 then width else 6 * (width / 6)
  {
  }

  lemma RowPlace(virWidth: nat, x: nat, y: nat)
    ensures Place(Halves(virWidth, 3), y, 0) + x / 2 == ColourFilter.PixelByte(virWidth, x, y)
  {
    HalfStart(virWidth, 3, y / 3, y % 3);
    hide Place;
    assert y / 3 * 3 + y % 3 == y;
  }

  lemma PixelPlace(src: seq<Pixel>, width: nat, x: nat, y: nat)
    ensures At(y / 3, width, x / 3) == ColourFilter.PixelAt(width, x, y)
    ensures At(y / 3, width, x / 3) < |src| ==>
      ExpandedNibble(src, width, x, y) == ColourFilter.PixelNibble(src, width, x, y)
  {
    if At(y / 3, width, x / 3) < |src| {
      NibbleIsChannel(src, width, x, y);
      ChannelIsField(src[At(y / 3, width, x / 3)], x / 3 + y % 3);
      hide FilterChannel, ColourFilter.Field, ExpandedNibble;
    }
  }

  lemma ChannelIsField(p: Pixel, k: nat)
    ensures FilterChannel(p, k) == ColourFilter.Field(p, if k % 3 == 0 then 2 else if k % 3 == 1 then 1 else 0)
  {
  }

  lemma NibbleIsChannel(src: seq<Pixel>, width: nat, x: nat, y: nat)
    requires At(y / 3, width, x / 3) < |src|
    ensures ExpandedNibble(src, width, x, y) == FilterChannel(src[At(y / 3, width, x / 3)], x / 3 + y % 3)
  {
    hide FilterChannel, At, Place;
  }

  /** Every byte that holds no nibble of the picture is as it was. */
  lemma ExpansionKeeps(src: seq<Pixel>, width: nat, virWidth: nat, before: seq<Byte>, h: nat, m: nat)
    requires m < |before|
    requires forall x: nat, y: nat :: x < 3 * (if width % 2 == 0 then width else 6 * (width / 6)) && y < 3 * h
               ==> ColourFilter.PixelByte(virWidth, x, y) != m
    ensures ExpandedRows(src, width, virWidth, before, h)[m] == before[m]
  {
    var l, cols := Halves(virWidth, 3), 3 * Pairs(width);
    PairsAre(width);
    forall y: nat, c: nat | IsPlace(l, cols, m, y, c) ensures y >= 3 * h {
      RowPlace(virWidth, 2 * c, y);
      PlaceOffset(l, y);
      hide Place, ColourFilter.PixelByte, Pairs;
    }
    PaintedElsewhere(before, l, cols, ExpandedPicture(src, width), 3 * h, m);
  }
}
