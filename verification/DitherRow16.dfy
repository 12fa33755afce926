/** hwcomposer.cpp, `Luma8bit_to_4bit_row_16` and `gray256_to_gray16_dither`. */
module DitherRow16 {
  import opened Arithmetic
  import opened ErrorDiffusion
  import opened DitherLines

  /** The first half of the loop body: the four pixels of one source word. */
  method LowWord(srcData: nat, res0: array<int>, res1: array<int>, w: nat, i: nat, v: int,
                 ghost px: seq<int>, ghost r0: seq<int>, ghost r1: seq<int>)
    returns (v0: int, g0: int, g1: int, g2: int, g3: int)
    requires res0 != res1
    requires i + 8 <= w && RowAt(Gray16, false, px, r0, r1, w, i, v, res1[..], res0[..])
    requires px[i] == Byte(srcData, 0) && px[i + 1] == Byte(srcData, 1)
    requires px[i + 2] == Byte(srcData, 2) && px[i + 3] == Byte(srcData, 3)
    modifies res0, res1
    ensures RowAt(Gray16, false, px, r0, r1, w, i + 4, v0, res1[..], res0[..])
    ensures g0 == 16 * Level(Gray16, px, r0, i) && g1 == 16 * Level(Gray16, px, r0, i + 1)
    ensures g2 == 16 * Level(Gray16, px, r0, i + 2) && g3 == 16 * Level(Gray16, px, r0, i + 3)
  {
    hide Line, Carry, Level, Error, Total, Clip, AddTo, RowAt, Pixels, Byte, Share, Deposit, Cleared;
    v0 := v;
    var gTemp, e, v1, v2, v3;
    PixelStep(Gray16, false, px, r0, r1, w, i, v0, res1[..], res0[..]);
    gTemp := Byte(srcData, 0) + res0[i] + v0;
    ClearCell(res0, i);
    gTemp := Clip(gTemp);
    g0 := HighNibble(gTemp);
    e := gTemp - g0;
    v0, v1, v2, v3 := Share(e, 7), Share(e, 3), Share(e, 5), Share(e, 1);
    if i == 0 {
      AddShort(res1, i, v2);
      AddShort(res1, i + 1, v3);
    } else {
      AddThree(res1, i, v1, v2, v3);
    }

    PixelStep(Gray16, false, px, r0, r1, w, i + 1, v0, res1[..], res0[..]);
    gTemp := Byte(srcData, 1) + res0[i + 1] + v0;
    ClearCell(res0, i + 1);
    gTemp := Clip(gTemp);
    g1 := HighNibble(gTemp);
    e := gTemp - g1;
    v0, v1, v2, v3 := Share(e, 7), Share(e, 3), Share(e, 5), Share(e, 1);
    AddThree(res1, i + 1, v1, v2, v3);

    PixelStep(Gray16, false, px, r0, r1, w, i + 2, v0, res1[..], res0[..]);
    gTemp := Byte(srcData, 2) + res0[i + 2] + v0;
    ClearCell(res0, i + 2);
    gTemp := Clip(gTemp);
    g2 := HighNibble(gTemp);
    e := gTemp - g2;
    v0, v1, v2, v3 := Share(e, 7), Share(e, 3), Share(e, 5), Share(e, 1);
    AddThree(res1, i + 2, v1, v2, v3);

    PixelStep(Gray16, false, px, r0, r1, w, i + 3, v0, res1[..], res0[..]);
    gTemp := Byte(srcData, 3) + res0[i + 3] + v0;
    ClearCell(res0, i + 3);
    gTemp := Clip(gTemp);
    g3 := HighNibble(gTemp);
    e := gTemp - g3;
    v0, v1, v2, v3 := Share(e, 7), Share(e, 3), Share(e, 5), Share(e, 1);
    AddThree(res1, i + 3, v1, v2, v3);
  }

  /** The second half of the loop body. */
  method HighWord(srcData: nat, res0: array<int>, res1: array<int>, w: nat, i: nat, v: int,
                  ghost px: seq<int>, ghost r0: seq<int>, ghost r1: seq<int>)
    returns (v0: int, g4: int, g5: int, g6: int, g7: int)
    requires res0 != res1
    requires i + 8 <= w && RowAt(Gray16, false, px, r0, r1, w, i + 4, v, res1[..], res0[..])
    requires i + 8 < w ==> i + 8 < res1.Length
    requires px[i + 4] == Byte(srcData, 0) && px[i + 5] == Byte(srcData, 1)
    requires px[i + 6] == Byte(srcData, 2) && px[i + 7] == Byte(srcData, 3)
    modifies res0, res1
    ensures RowAt(Gray16, false, px, r0, r1, w, i + 8, v0, res1[..], res0[..])
    ensures g4 == 16 * Level(Gray16, px, r0, i + 4) && g5 == 16 * Level(Gray16, px, r0, i + 5)
    ensures g6 == 16 * Level(Gray16, px, r0, i + 6) && g7 == 16 * Level(Gray16, px, r0, i + 7)
  {
    hide Line, Carry, Level, Error, Total, Clip, AddTo, RowAt, Pixels, Byte, Share, Deposit, Cleared;
    v0 := v;
    var gTemp, e, v1, v2, v3;
    PixelStep(Gray16, false, px, r0, r1, w, i + 4, v0, res1[..], res0[..]);
    gTemp := Byte(srcData, 0) + res0[i + 4] + v0;
    ClearCell(res0, i + 4);
    gTemp := Clip(gTemp);
    g4 := HighNibble(gTemp);
    e := gTemp - g4;
    v0, v1, v2, v3 := Share(e, 7), Share(e, 3), Share(e, 5), Share(e, 1);
    AddThree(res1, i + 4, v1, v2, v3);

    PixelStep(Gray16, false, px, r0, r1, w, i + 5, v0, res1[..], res0[..]);
    gTemp := Byte(srcData, 1) + res0[i + 5] + v0;
    ClearCell(res0, i + 5);
    gTemp := Clip(gTemp);
    g5 := HighNibble(gTemp);
    e := gTemp - g5;
    v0, v1, v2, v3 := Share(e, 7), Share(e, 3), Share(e, 5), Share(e, 1);
    AddThree(res1, i + 5, v1, v2, v3);

    PixelStep(Gray16, false, px, r0, r1, w, i + 6, v0, res1[..], res0[..]);
    gTemp := Byte(srcData, 2) + res0[i + 6] + v0;
    ClearCell(res0, i + 6);
    gTemp := Clip(gTemp);
    g6 := HighNibble(gTemp);
    e := gTemp - g6;
    v0, v1, v2, v3 := Share(e, 7), Share(e, 3), Share(e, 5), Share(e, 1);
    AddThree(res1, i + 6, v1, v2, v3);

    PixelStep(Gray16, false, px, r0, r1, w, i + 7, v0, res1[..], res0[..]);
    gTemp := Byte(srcData, 3) + res0[i + 7] + v0;
    ClearCell(res0, i + 7);
    gTemp := Clip(gTemp);
    g7 := HighNibble(gTemp);
    e := gTemp - g7;
    v0, v1, v2, v3 := Share(e, 7), Share(e, 3), Share(e, 5), Share(e, 1);
    if i == w - 8 {
      AddShort(res1, i + 6, v1);
      AddShort(res1, i + 7, v2);
    } else {
      AddThree(res1, i + 7, v1, v2, v3);
    }
  }

  /** (g7<<24)|(g6<<20)|(g5<<16)|(g4<<12)|(g3<<8)|(g2<<4)|g1|(g0>>4), whose operands have no bit in common. */
  function PackWord(g0: nat, g1: nat, g2: nat, g3: nat, g4: nat, g5: nat, g6: nat, g7: nat): nat {
    g7 * 0x100_0000 + g6 * 0x10_0000 + g5 * 0x1_0000 + g4 * 0x1000 + g3 * 0x100 + g2 * 0x10 + g1 + g0 / 16
  }

  lemma NibbleStep(low: nat, rest: nat, k: nat)
    requires low < 16
    ensures Nibble(16 * rest + low, 0) == low
    ensures Nibble(16 * rest + low, k + 1) == Nibble(rest, k)
  {
    assert (16 * rest + low) / 16 == rest && (16 * rest + low) % 16 == low;
  }

  function Joined(l: seq<nat>): nat {
    if l == [] then 0 else 16 * Joined(l[1..]) + l[0]
  }

  lemma {:induction false} NibbleOfJoined(l: seq<nat>, k: nat)
    requires k < |l| && forall j :: 0 <= j < |l| ==> l[j] < 16
    ensures Nibble(Joined(l), k) == l[k]
  {
    if k == 0 {
      NibbleStep(l[0], Joined(l[1..]), 0);
    } else {
      NibbleStep(l[0], Joined(l[1..]), k - 1);
      NibbleOfJoined(l[1..], k - 1);
    }
  }

  /** Nibble k of a packed word is the k-th level. */
  lemma PackedNibbles(l: seq<nat>)
    requires |l| == 8 && forall j :: 0 <= j < 8 ==> l[j] < 16
    ensures forall k :: 0 <= k < 8 ==>
      Nibble(PackWord(16 * l[0], 16 * l[1], 16 * l[2], 16 * l[3], 16 * l[4], 16 * l[5], 16 * l[6], 16 * l[7]), k)
          == l[k]
  {
    var word := PackWord(16 * l[0], 16 * l[1], 16 * l[2], 16 * l[3], 16 * l[4], 16 * l[5], 16 * l[6], 16 * l[7]);
    JoinedIsPacked(l);
    forall k | 0 <= k < 8 ensures Nibble(word, k) == l[k] {
      NibbleOfJoined(l, k);
    }
  }

  lemma JoinedIsPacked(l: seq<nat>)
    requires |l| == 8
    ensures Joined(l) == PackWord(16 * l[0], 16 * l[1], 16 * l[2], 16 * l[3], 16 * l[4], 16 * l[5], 16 * l[6],
                                  16 * l[7])
  {
    var a := l[7..];
    assert a[1..] == [];
    assert Joined(a) == l[7];
    assert l[6..][1..] == l[7..] && Joined(l[6..]) == 16 * Joined(l[7..]) + l[6];
    assert l[5..][1..] == l[6..] && Joined(l[5..]) == 16 * Joined(l[6..]) + l[5];
    assert l[4..][1..] == l[5..] && Joined(l[4..]) == 16 * Joined(l[5..]) + l[4];
    assert l[3..][1..] == l[4..] && Joined(l[3..]) == 16 * Joined(l[4..]) + l[3];
    assert l[2..][1..] == l[3..] && Joined(l[2..]) == 16 * Joined(l[3..]) + l[2];
    assert l[1..][1..] == l[2..] && Joined(l[1..]) == 16 * Joined(l[2..]) + l[1];
    assert Joined(l) == 16 * Joined(l[1..]) + l[0];
  }

  lemma BytesOf(src: seq<nat>, at: nat, w: nat, j: nat)
    requires at <= |src| && w <= 4 * (|src| - at) && 4 * j + 4 <= w
    ensures at + j < |src|
    ensures Pixels(src, at, w)[4 * j] == Byte(src[at + j], 0)
    ensures Pixels(src, at, w)[4 * j + 1] == Byte(src[at + j], 1)
    ensures Pixels(src, at, w)[4 * j + 2] == Byte(src[at + j], 2)
    ensures Pixels(src, at, w)[4 * j + 3] == Byte(src[at + j], 3)
  {
    PixelAt(src, at, w, j, 0);
    PixelAt(src, at, w, j, 1);
    PixelAt(src, at, w, j, 2);
    PixelAt(src, at, w, j, 3);
  }

  /** Eight levels in one word, the first in the lowest nibble. */
  ghost predicate HoldsLevels(word: nat, px: seq<int>, res: seq<int>, at: nat) {
    && at + 8 <= |px| && at + 8 <= |res|
    && forall k :: 0 <= k < 8 ==> Nibble(word, k) == Level(Gray16, px, res, at + k)
  }

  lemma PackLevels(px: seq<int>, res: seq<int>, i: nat, g: seq<int>)
    requires i + 8 <= |px| && i + 8 <= |res| && |g| == 8
    requires forall k :: 0 <= k < 8 ==> g[k] == 16 * Level(Gray16, px, res, i + k)
    ensures forall k :: 0 <= k < 8 ==> g[k] >= 0
    ensures HoldsLevels(PackWord(g[0], g[1], g[2], g[3], g[4], g[5], g[6], g[7]), px, res, i)
  {
    hide Level, PackWord;
    var l: seq<nat> := [Level(Gray16, px, res, i), Level(Gray16, px, res, i + 1),
                        Level(Gray16, px, res, i + 2), Level(Gray16, px, res, i + 3),
                        Level(Gray16, px, res, i + 4), Level(Gray16, px, res, i + 5),
                        Level(Gray16, px, res, i + 6), Level(Gray16, px, res, i + 7)];
    assert forall k :: 0 <= k < 8 ==> g[k] == 16 * l[k];
    PackedNibbles(l);
  }

  /** Widths are whole numbers of words: of four pixels in, of eight out. */
  predicate Fours(w: nat) {
    w % 4 == 0
  }

  predicate Eights(w: nat) {
    w % 8 == 0
  }

  lemma EightsAreFours(w: nat)
    requires Eights(w)
    ensures Fours(w) && RowIn(w) == 2 * RowOut(w) && 8 * RowOut(w) == w
  {
  }

  /** Word j from dstAt on holds levels 8j to 8j + 7 of the row, and no other word has changed. */
  ghost predicate RowWritten(before: seq<nat>, now: seq<nat>, dstAt: nat, px: seq<int>, r0: seq<int>, w: nat)
    requires w <= |px| && w <= |r0|
  {
    && |now| == |before| && dstAt + RowOut(w) <= |now|
    && (forall j :: 0 <= j < RowOut(w) ==> HoldsLevels(now[dstAt + j], px, r0, 8 * j))
    && (forall m :: 0 <= m < |now| && !(dstAt <= m < dstAt + RowOut(w)) ==> now[m] == before[m])
  }

  /** One row, eight pixels to an iteration. */
  method Row16(src: seq<nat>, srcAt: nat, dst: array<nat>, dstAt: nat, res0: array<int>, res1: array<int>, w: nat)
    requires Eights(w)
    requires srcAt <= |src| && w <= 4 * (|src| - srcAt)
    requires dstAt <= dst.Length && w <= 8 * (dst.Length - dstAt)
    requires w <= res0.Length && w <= res1.Length
    requires res0 != res1 && dst as object != res0 && dst as object != res1
    modifies dst, res0, res1
    ensures RowWritten(old(dst[..]), dst[..], dstAt, Pixels(src, srcAt, w), old(res0[..]), w)
    ensures res1[..] == Line(Gray16, Straight, w, false, Pixels(src, srcAt, w), old(res0[..]), old(res1[..]), w)
    ensures Cleared(old(res0[..]), res0[..], w)
  {
    hide Line, Carry, Level, Pixels, Nibble, PackWord, HoldsLevels, Cleared, RowAt;
    ghost var px := Pixels(src, srcAt, w);
    ghost var r0, r1 := res0[..], res1[..];
    var v0 := 0;
    var s, d, i := srcAt, dstAt, 0;
    RowStart(Gray16, false, px, r0, r1, w);
    while i < w
      invariant i <= w && 4 * (s - srcAt) == i && 8 * (d - dstAt) == i
      invariant RowAt(Gray16, false, px, r0, r1, w, i, v0, res1[..], res0[..])
      invariant forall j :: 0 <= j < d - dstAt ==> HoldsLevels(dst[dstAt + j], px, r0, 8 * j)
      invariant forall m :: 0 <= m < dst.Length && !(dstAt <= m < d) ==> dst[m] == old(dst[m])
    {
      assert i + 8 <= w;
      BytesOf(src, srcAt, w, s - srcAt);
      BytesOf(src, srcAt, w, s - srcAt + 1);
      var g0, g1, g2, g3, g4, g5, g6, g7;
      v0, g0, g1, g2, g3 := LowWord(src[s], res0, res1, w, i, v0, px, r0, r1);
      v0, g4, g5, g6, g7 := HighWord(src[s + 1], res0, res1, w, i, v0, px, r0, r1);
      PackLevels(px, r0, i, [g0, g1, g2, g3, g4, g5, g6, g7]);
      dst[d] := PackWord(g0, g1, g2, g3, g4, g5, g6, g7);
      s, d, i := s + 2, d + 1, i + 8;
    }
    RowEnd(Gray16, false, px, r0, r1, w, v0, res1[..], res0[..]);
  }

  // ---- The whole image ----

  function Zeros(w: nat): seq<int> {
    seq(w, _ => 0)
  }

  /** How many words the first h rows of an image w pixels wide take. */
  function Words(w: nat, h: nat): nat {
    h * (w / 4)
  }

  lemma WordsStep(w: nat, h: nat)
    ensures Words(w, h + 1) == Words(w, h) + RowIn(w)
  {
  }

  /** The pixels of row h of an image w pixels wide, packed four to a word. */
  function RowPixels(src: seq<nat>, w: nat, h: nat): (px: seq<int>)
    requires Fours(w) && Words(w, h + 1) <= |src|
    ensures |px| == w
  {
    RowFits(|src|, w, h);
    Pixels(src, Words(w, h), w)
  }

  lemma RowFits(n: nat, w: nat, h: nat)
    requires Fours(w) && Words(w, h + 1) <= n
    ensures Words(w, h) <= n && w <= 4 * (n - Words(w, h))
  {
    WordsStep(w, h);
  }

  /** The residual line that row h starts from. */
  function Residual(src: seq<nat>, w: nat, h: nat): (res: seq<int>)
    requires Fours(w) && Words(w, h) <= |src|
    ensures |res| == w
  {
    if h == 0 then Zeros(w)
    else
      WordsStep(w, h - 1);
      Line(Gray16, Straight, w, false, RowPixels(src, w, h - 1), Residual(src, w, h - 1), Zeros(w), w)
  }

  /** Words of input and of output to a row. */
  function RowIn(w: nat): nat {
    w / 4
  }

  function RowOut(w: nat): nat {
    w / 8
  }

  /** How many words of output the first h rows take. */
  function OutWords(w: nat, h: nat): nat {
    h * RowOut(w)
  }

  /** Row h of the image: it consumes its residual line, leaves the next row's, and clears its own. */
  method DitherRow(src: seq<nat>, s: nat, dst: array<nat>, d: nat, res0: array<int>, res1: array<int>, w: nat,
                   ghost orig: seq<nat>, ghost h: nat, ghost height: nat)
    requires Eights(w) && h < height && Words(w, height) <= |src| && OutWords(w, height) <= dst.Length
    requires s == Words(w, h) <= |src| && RowsDone(src, orig, dst[..], w, h, d)
    requires res0 != res1 && dst as object != res0 && dst as object != res1
    requires res0[..] == Residual(src, w, h) && res1[..] == Zeros(w)
    modifies dst, res0, res1
    ensures s + RowIn(w) == Words(w, h + 1) <= |src| && RowsDone(src, orig, dst[..], w, h + 1, d + RowOut(w))
    ensures res1[..] == Residual(src, w, h + 1) && res0[..] == Zeros(w)
  {
    RowsLeft(src, orig, dst[..], w, h, height, d);
    EightsAreFours(w);
    ghost var before, r0 := dst[..], res0[..];
    assert res0.Length == |res0[..]| == w && res1.Length == |res1[..]| == w;
    hide *;
    Row16(src, s, dst, d, res0, res1, w);
    ResidualStep(src, w, h);
    ClearedAll(r0, res0[..], w);
    RowsHold(src, orig, before, dst[..], w, h, d);
  }

  predicate Even(h: nat) {
    h % 2 == 0
  }

  lemma EvenZero()
    ensures Even(0)
  {
  }

  lemma EvenNext(h: nat)
    ensures Even(h + 1) <==> !Even(h)
  {
  }

  method NewLine(w: nat) returns (line: array<int>)
    ensures fresh(line) && line[..] == Zeros(w)
  {
    line := new int[w](_ => 0);
  }

  /** gray256_to_gray16_dither: two line buffers take turns; every row finds the next line cleared. */
  method Gray256ToGray16Dither(src: seq<nat>, dst: array<nat>, panelH: nat, panelW: nat)
    requires Eights(panelW)
    requires Words(panelW, panelH) <= |src| && OutWords(panelW, panelH) <= dst.Length
    modifies dst
    ensures forall h: nat, j: nat :: h < panelH && j < RowOut(panelW) ==>
      RowHolds(src, dst[..], panelW, h, j)
    ensures forall m :: OutWords(panelW, panelH) <= m < dst.Length ==> dst[m] == old(dst[m])
  {
    EightsAreFours(panelW);
    hide *;
    ghost var orig := dst[..];
    var even := NewLine(panelW);
    var odd := NewLine(panelW);
    ResidualStart(src, panelW);
    var s: nat, d: nat := 0, 0;
    NoRows(src, orig, panelW);
    assert Even(0) by { EvenZero(); }
    for h := 0 to panelH
      invariant s == Words(panelW, h) <= |src| && RowsDone(src, orig, dst[..], panelW, h, d)
      invariant fresh(even) && fresh(odd) && even != odd
      invariant Even(h) ==> even[..] == Residual(src, panelW, h) && odd[..] == Zeros(panelW)
      invariant !Even(h) ==> odd[..] == Residual(src, panelW, h) && even[..] == Zeros(panelW)
    {
      EvenNext(h);
      if Even(h) {
        DitherRow(src, s, dst, d, even, odd, panelW, orig, h, panelH);
      } else {
        DitherRow(src, s, dst, d, odd, even, panelW, orig, h, panelH);
      }
      s, d := s + RowIn(panelW), d + RowOut(panelW);
    }
    AllRows(src, orig, dst[..], panelW, panelH, d);
  }

  /** Word j of row h holds the levels that the row's pixels and its residual line give. */
  ghost predicate RowHolds(src: seq<nat>, dst: seq<nat>, w: nat, h: nat, j: nat) {
    && Fours(w)
    && Words(w, h + 1) <= |src| && Words(w, h) <= |src|
    && OutWords(w, h) + j < |dst|
    && HoldsLevels(dst[OutWords(w, h) + j], RowPixels(src, w, h), Residual(src, w, h), 8 * j)
  }

  lemma ResidualStart(src: seq<nat>, w: nat)
    requires Fours(w)
    ensures Residual(src, w, 0) == Zeros(w)
  {
  }

  lemma ResidualStep(src: seq<nat>, w: nat, h: nat)
    requires Fours(w) && Words(w, h + 1) <= |src|
    ensures Words(w, h) <= |src| && w <= 4 * (|src| - Words(w, h))
    ensures RowPixels(src, w, h) == Pixels(src, Words(w, h), w)
    ensures Residual(src, w, h + 1)
         == Line(Gray16, Straight, w, false, RowPixels(src, w, h), Residual(src, w, h), Zeros(w), w)
  {
    RowFits(|src|, w, h);
  }

  /** The first h rows are written, up to word d; the rest of the buffer is as it was. */
  ghost predicate RowsDone(src: seq<nat>, orig: seq<nat>, now: seq<nat>, w: nat, h: nat, d: nat) {
    && Eights(w) && |now| == |orig| && d == OutWords(w, h)
    && (forall h': nat, j: nat :: h' < h && j < RowOut(w) ==> RowHolds(src, now, w, h', j))
    && (forall m :: d <= m < |now| ==> now[m] == orig[m])
  }

  lemma NoRows(src: seq<nat>, orig: seq<nat>, w: nat)
    requires Eights(w)
    ensures Words(w, 0) == 0 && RowsDone(src, orig, orig, w, 0, 0)
  {
  }

  lemma AllRows(src: seq<nat>, orig: seq<nat>, now: seq<nat>, w: nat, height: nat, d: nat)
    requires RowsDone(src, orig, now, w, height, d)
    ensures forall h: nat, j: nat :: h < height && j < RowOut(w) ==> RowHolds(src, now, w, h, j)
    ensures |now| == |orig| && forall m :: OutWords(w, height) <= m < |now| ==> now[m] == orig[m]
  {
    hide RowHolds;
  }

  lemma WordsGrow(w: nat, h: nat, height: nat)
    requires h <= height
    ensures Words(w, h) <= Words(w, height) && OutWords(w, h) <= OutWords(w, height)
  {
    Grow(h, height, w / 4);
    Grow(h, height, w / 8);
  }

  lemma OutWordsStep(w: nat, h: nat)
    ensures OutWords(w, h + 1) == OutWords(w, h) + RowOut(w)
  {
  }

  lemma RowsLeft(src: seq<nat>, orig: seq<nat>, now: seq<nat>, w: nat, h: nat, height: nat, d: nat)
    requires RowsDone(src, orig, now, w, h, d) && h < height && Words(w, height) <= |src|
        && OutWords(w, height) <= |now|
    ensures Words(w, h + 1) == Words(w, h) + RowIn(w) <= |src| && w <= 4 * (|src| - Words(w, h))
    ensures d + RowOut(w) <= |now| && w <= 8 * (|now| - d)
  {
    hide Words, OutWords, RowIn, RowOut, RowHolds, Eights;
    EightsAreFours(w);
    WordsStep(w, h);
    OutWordsStep(w, h);
    WordsGrow(w, h + 1, height);
  }

  lemma ClearedAll(before: seq<int>, now: seq<int>, w: nat)
    requires Cleared(before, now, w) && |before| == w
    ensures now == Zeros(w)
  {
  }

  lemma EarlierRowKept(src: seq<nat>, before: seq<nat>, now: seq<nat>, w: nat, h: nat, h': nat, j: nat)
    requires Eights(w) && h' < h && j < RowOut(w)
    requires |before| == |now|
    requires forall m :: 0 <= m < |now| && m < OutWords(w, h) ==> now[m] == before[m]
    requires RowHolds(src, before, w, h', j)
    ensures RowHolds(src, now, w, h', j)
  {
    hide HoldsLevels, RowPixels, Residual, OutWords, Words, RowOut, Fours, Eights;
    WordsGrow(w, h' + 1, h);
    OutWordsStep(w, h');
  }

  lemma RowsHold(src: seq<nat>, orig: seq<nat>, before: seq<nat>, now: seq<nat>, w: nat, h: nat, d: nat)
    requires Fours(w) && RowsDone(src, orig, before, w, h, d)
    requires Words(w, h + 1) <= |src| && Words(w, h) <= |src|
    requires RowWritten(before, now, d, RowPixels(src, w, h), Residual(src, w, h), w)
    ensures RowsDone(src, orig, now, w, h + 1, d + RowOut(w))
  {
    hide HoldsLevels, RowPixels, Residual, OutWords, Words, RowOut, Fours, Eights;
    OutWordsStep(w, h);
    forall h': nat, j: nat | h' < h + 1 && j < RowOut(w) ensures RowHolds(src, now, w, h', j) {
      if h' < h {
        assert RowHolds(src, before, w, h', j);
        EarlierRowKept(src, before, now, w, h, h', j);
      }
    }
  }
}
