/** The packers from 8-bit to 4-bit grey: `logo_gray256_to_gray16` byte by byte and `Luma8bit_to_4bit` word by
    word (hwcomposer.cpp), `neon_gray256_to_gray16ARM_16` and `_32` vector by vector
    (rgb888_to_gray_256_neon.s). Masks and shifts are on real bit-vectors; memory is little-endian bytes. */
module Packers {
  import opened Arithmetic
  import opened Canvas

  type Word = bv32

  /** Two pixels in one byte: the top four bits of each, the first in the low nibble. */
  function PackPair(a: Byte, b: Byte): Byte {
    (a >> 4) | (b & 0xf0)
  }

  /** Unpacking the two nibbles returns the top four bits of the pixels. */
  lemma UnpackPair(a: Byte, b: Byte)
    ensures PackPair(a, b) & 0x0f == a >> 4
    ensures PackPair(a, b) >> 4 == b >> 4
  {
  }

  // ---- What a packed image is ----

  /** Byte c of row y comes from pixels 2c and 2c+1 of that row. */
  ghost function PackedPicture(src: seq<Byte>, width: nat): Picture {
    (y: nat, c: nat) =>
      var i := At(y, width, 2 * c);
      if i + 1 < |src| then PackPair(src[i], src[i + 1]) else 0
  }

  /** The destination once `row` rows and p bytes of the next one are packed; all other bytes are as they were. */
  ghost function Packed(src: seq<Byte>, before: seq<Byte>, width: nat, stride: nat, row: nat, p: nat): (dst: seq<Byte>)
    ensures |dst| == |before|
  {
    Painted(before, Rows(stride), width / 2, PackedPicture(src, width), row, [p])
  }

  lemma PackedNothing(src: seq<Byte>, before: seq<Byte>, width: nat, stride: nat)
    ensures Packed(src, before, width, stride, 0, 0) == before
  {
    PaintNothing(before, Rows(stride), width / 2, PackedPicture(src, width), [0]);
  }

  lemma PackedRowDone(src: seq<Byte>, before: seq<Byte>, width: nat, stride: nat, row: nat)
    ensures Packed(src, before, width, stride, row, width / 2) == Packed(src, before, width, stride, row + 1, 0)
  {
    PaintRowsDone(before, Rows(stride), width / 2, PackedPicture(src, width), row, [width / 2], [0]);
  }

  /** The sizes that an image of h rows needs. */
  ghost predicate Fits(srcLen: nat, dstLen: nat, width: nat, stride: nat, h: nat) {
    && width / 2 <= stride
    && At(h, width, 0) <= srcLen
    && (h > 0 && width / 2 > 0 ==> At(h - 1, stride, width / 2) <= dstLen)
  }

  lemma RowInside(srcLen: nat, dstLen: nat, width: nat, stride: nat, h: nat, row: nat)
    requires Fits(srcLen, dstLen, width, stride, h) && row < h
    ensures At(row, width, 0) + width == At(row + 1, width, 0) <= srcLen
    ensures width / 2 > 0 ==> At(row, stride, width / 2) <= dstLen
    ensures At(row, stride, 0) + stride == At(row + 1, stride, 0)
  {
    NextAt(row, width);
    NextAt(row, stride);
    Grow(row + 1, h, width);
    Grow(row, h - 1, stride);
  }

  // ---- Byte by byte ----

  method LogoGray256ToGray16(src: seq<Byte>, dst: array<Byte>, h: nat, w: nat)
    requires Fits(|src|, dst.Length, w / 2 * 2, w / 2, h)
    modifies dst
    ensures dst[..] == Packed(src, old(dst[..]), w / 2 * 2, w / 2, h, 0)
  {
    hide At, Packed;
    var s, d := 0, 0;
    ghost var before, width, stride := dst[..], w / 2 * 2, w / 2;
    PackedNothing(src, before, width, stride);
    AtZero(width);
    AtZero(stride);
    for i := 0 to h
      invariant s == At(i, width, 0) && d == At(i, stride, 0)
      invariant dst[..] == Packed(src, before, width, stride, i, 0)
    {
      RowInside(|src|, dst.Length, width, stride, h, i);
      AtOffset(i, width);
      AtOffset(i, stride);
      NextAt(i, width);
      NextAt(i, stride);
      for j := 0 to w / 2
        invariant s == At(i, width, 0) + 2 * j && d == At(i, stride, 0) + j
        invariant dst[..] == Packed(src, before, width, stride, i, j)
      {
        PackedNextBytes(src, before, width, stride, i, j, 1);
        OnePair(src, s);
        var g0 := (src[s] & 0xf0) >> 4;
        s := s + 1;
        var g3 := src[s] & 0xf0;
        s := s + 1;
        SamePair(src[s - 2], src[s - 1]);
        ghost var now := dst[..];
        dst[d] := g0 | g3;
        assert dst[..] == now[d := g0 | g3];
        d := d + 1;
      }
      PackedRowDone(src, before, width, stride, i);
    }
  }

  lemma OnePair(src: seq<Byte>, s: nat)
    requires s + 2 <= |src|
    ensures PairsFrom(src, s, 1) == [PackPair(src[s], src[s + 1])]
  {
  }

  lemma SamePair(a: Byte, b: Byte)
    ensures ((a & 0xf0) >> 4) | (b & 0xf0) == PackPair(a, b)
  {
  }

  // ---- Word by word ----

  /** A little-endian 32-bit load. */
  function LoadWord(b0: Byte, b1: Byte, b2: Byte, b3: Byte): Word {
    (b0 as Word) | ((b1 as Word) << 8) | ((b2 as Word) << 16) | ((b3 as Word) << 24)
  }

  /** The bytes of a little-endian 32-bit store. */
  function Low(w: Word, shift: nat): Byte
    requires shift in {0, 8, 16, 24}
  {
    ((w >> shift) & 0xff) as Byte
  }

  /** What two source words are packed into. */
  function PackWords(a: Word, b: Word): Word {
    var g0, g1, g2, g3 := (a & 0x0000_00f0) >> 4, (a & 0x0000_f000) >> 8, (a & 0x00f0_0000) >> 12,
        (a & 0xf000_0000) >> 16;
    var g4, g5, g6, g7 := (b & 0x0000_00f0) << 12, (b & 0x0000_f000) << 8, (b & 0x00f0_0000) << 4, b & 0xf000_0000;
    g0 | g1 | g2 | g3 | g4 | g5 | g6 | g7
  }

  /** The word packer's masks and shifts put each pixel's high nibble where the byte packer puts it. */
  lemma PackWordsIsPackPairs(b0: Byte, b1: Byte, b2: Byte, b3: Byte, b4: Byte, b5: Byte, b6: Byte, b7: Byte)
    ensures var w := PackWords(LoadWord(b0, b1, b2, b3), LoadWord(b4, b5, b6, b7));
            && Low(w, 0) == PackPair(b0, b1) && Low(w, 8) == PackPair(b2, b3)
            && Low(w, 16) == PackPair(b4, b5) && Low(w, 24) == PackPair(b6, b7)
  {
  }

  /** n pairs of pixels, packed. */
  function PairsFrom(src: seq<Byte>, s: nat, n: nat): (v: seq<Byte>)
    requires s + 2 * n <= |src|
    ensures |v| == n
  {
    seq(n, k requires 0 <= k < n => PackPair(src[s + 2 * k], src[s + 2 * k + 1]))
  }

  lemma PackedNextBytes(src: seq<Byte>, before: seq<Byte>, width: nat, stride: nat, row: nat, p: nat, n: nat)
    requires width / 2 <= stride && p + n <= width / 2
    requires At(row, width, 2 * p) + 2 * n <= |src| && At(row, stride, p) + n <= |before|
    ensures Packed(src, before, width, stride, row, p + n)
         == Splice(Packed(src, before, width, stride, row, p), At(row, stride, p),
                   PairsFrom(src, At(row, width, 2 * p), n))
  {
    hide Painted, Splice, PackPair;
    var f := PackedPicture(src, width);
    PaintStretch(before, Rows(stride), width / 2, f, row, [p], 0, n);
    assert [p][0 := p + n] == [p + n];
    assert Stretch(f, row, p, n) == PairsFrom(src, At(row, width, 2 * p), n) by {
      hide At;
      AtOffset(row, width);
    }
  }

  method StoreWord(dst: array<Byte>, at: nat, w: Word)
    requires at + 4 <= dst.Length
    modifies dst
    ensures dst[..] == Splice(old(dst[..]), at, [Low(w, 0), Low(w, 8), Low(w, 16), Low(w, 24)])
  {
    dst[at], dst[at + 1], dst[at + 2], dst[at + 3] := Low(w, 0), Low(w, 8), Low(w, 16), Low(w, 24);
  }

  /** Pixels are taken eight at a time, so a row is a multiple of eight pixels long. */
  function WordRow(panelW: nat): nat {
    (panelW + 7) / 8 * 8
  }

  lemma WordRowIs(panelW: nat)
    ensures WordRow(panelW) == 8 * ((panelW + 7) / 8) && panelW <= WordRow(panelW) < panelW + 8
  {
  }

  /** The buffer with j rows and p bytes of the next one packed. */
  ghost predicate WordsPacked(now: seq<Byte>, src: seq<Byte>, before: seq<Byte>, panelW: nat, stride: nat, j: nat,
                              p: nat) {
    WordRow(panelW) / 2 <= stride && now == Packed(src, before, WordRow(panelW), stride, j, p)
  }

  /** Eight pixels of row j, from column 2p on. */
  method LumaWords(graynew: array<Byte>, gray8bit: seq<Byte>, s: nat, d: nat, ghost panelW: nat,
                   ghost before: seq<Byte>, ghost stride: nat, ghost j: nat, ghost p: nat)
    requires p + 4 <= WordRow(panelW) / 2
    requires s == At(j, WordRow(panelW), 2 * p) && s + 8 <= |gray8bit|
    requires d == At(j, stride, p) && d + 4 <= graynew.Length == |before|
    requires WordsPacked(graynew[..], gray8bit, before, panelW, stride, j, p)
    modifies graynew
    ensures WordsPacked(graynew[..], gray8bit, before, panelW, stride, j, p + 4)
  {
    hide At, Packed, PackWords, LoadWord, Low, PackPair, Splice, WordRow, PairsFrom;
    PackedNextBytes(gray8bit, before, WordRow(panelW), stride, j, p, 4);
    FourPairs(gray8bit, s);
    var low := LoadWord(gray8bit[s], gray8bit[s + 1], gray8bit[s + 2], gray8bit[s + 3]);
    var high := LoadWord(gray8bit[s + 4], gray8bit[s + 5], gray8bit[s + 6], gray8bit[s + 7]);
    StoreWord(graynew, d, PackWords(low, high));
  }

  /** One row of words. */
  method LumaRow(graynew: array<Byte>, gray8bit: seq<Byte>, start: nat, rowStart: nat, panelW: nat,
                 ghost before: seq<Byte>, ghost stride: nat, ghost h: nat, ghost j: nat)
    returns (s: nat)
    requires Fits(|gray8bit|, graynew.Length, WordRow(panelW), stride, h)
    requires j < h && |before| == graynew.Length
    requires start == At(j, WordRow(panelW), 0) && rowStart == At(j, stride, 0)
    requires WordsPacked(graynew[..], gray8bit, before, panelW, stride, j, 0)
    modifies graynew
    ensures s == start + WordRow(panelW)
    ensures WordsPacked(graynew[..], gray8bit, before, panelW, stride, j + 1, 0)
  {
    ghost var g, n := 0, (panelW + 7) / 8;
    WordRowIs(panelW);
    hide *;
    s := start;
    var d, i := rowStart, 0;
    while i < panelW
      invariant i == 8 * g && g <= n && 8 * n == WordRow(panelW) < panelW + 8
      invariant s == start + 8 * g && d == rowStart + 4 * g
      invariant WordsPacked(graynew[..], gray8bit, before, panelW, stride, j, 4 * g)
    {
      WordPlace(|gray8bit|, graynew.Length, panelW, stride, h, j, g, n);
      LumaWords(graynew, gray8bit, s, d, panelW, before, stride, j, 4 * g);
      s, d, i := s + 8, d + 4, i + 8;
      g := g + 1;
    }
    assert WordRow(panelW) / 2 == 4 * n;
    WordsRowDone(graynew[..], gray8bit, before, panelW, stride, j);
  }

  lemma WordPlace(srcLen: nat, dstLen: nat, panelW: nat, stride: nat, h: nat, j: nat, g: nat, n: nat)
    requires Fits(srcLen, dstLen, WordRow(panelW), stride, h) && j < h && g < n && 8 * n == WordRow(panelW)
    ensures 4 * g + 4 <= WordRow(panelW) / 2
    ensures At(j, WordRow(panelW), 2 * (4 * g)) == At(j, WordRow(panelW), 0) + 8 * g
    ensures At(j, WordRow(panelW), 0) + 8 * g + 8 <= srcLen
    ensures At(j, stride, 4 * g) == At(j, stride, 0) + 4 * g
    ensures At(j, stride, 0) + 4 * g + 4 <= dstLen
  {
    RowInside(srcLen, dstLen, WordRow(panelW), stride, h, j);
    AtOffset(j, WordRow(panelW));
    AtOffset(j, stride);
    hide At, WordRow, Fits;
    assert WordRow(panelW) / 2 == 4 * n;
  }

  lemma WordsRowDone(now: seq<Byte>, src: seq<Byte>, before: seq<Byte>, panelW: nat, stride: nat, j: nat)
    requires WordsPacked(now, src, before, panelW, stride, j, WordRow(panelW) / 2)
    ensures WordsPacked(now, src, before, panelW, stride, j + 1, 0)
  {
    hide Packed, WordRow;
    PackedRowDone(src, before, WordRow(panelW), stride, j);
  }

  method Luma8bitTo4bit(graynew: array<Byte>, gray8bit: seq<Byte>, virHeight: nat, virWidth: nat, panelW: nat)
    requires Fits(|gray8bit|, graynew.Length, 8 * ((panelW + 7) / 8), virWidth / 8 * 4, virHeight)
    modifies graynew
    ensures graynew[..] == Packed(gray8bit, old(graynew[..]), 8 * ((panelW + 7) / 8), virWidth / 8 * 4, virHeight, 0)
  {
    WordRowIs(panelW);
    ghost var before, width, stride := graynew[..], WordRow(panelW), virWidth / 8 * 4;
    PackedNothing(gray8bit, before, width, stride);
    AtZero(width);
    AtZero(stride);
    hide At, Packed, WordRow;
    var s, rowStart := 0, 0;
    for j := 0 to virHeight
      invariant s == At(j, width, 0) && rowStart == At(j, stride, 0)
      invariant WordsPacked(graynew[..], gray8bit, before, panelW, stride, j, 0)
    {
      NextAt(j, width);
      NextAt(j, stride);
      hide WordsPacked, Fits;
      s := LumaRow(graynew, gray8bit, s, rowStart, panelW, before, stride, virHeight, j);
      rowStart := rowStart + virWidth / 8 * 4;
    }
  }

  lemma FourPairs(src: seq<Byte>, s: nat)
    requires s + 8 <= |src|
    ensures var w := PackWords(LoadWord(src[s], src[s + 1], src[s + 2], src[s + 3]),
                               LoadWord(src[s + 4], src[s + 5], src[s + 6], src[s + 7]));
            [Low(w, 0), Low(w, 8), Low(w, 16), Low(w, 24)] == PairsFrom(src, s, 4)
  {
    hide PackWords, LoadWord, Low, PackPair;
    PackWordsIsPackPairs(src[s], src[s + 1], src[s + 2], src[s + 3], src[s + 4], src[s + 5], src[s + 6], src[s + 7]);
  }

  // ---- Vector by vector ----

  /** A 64-bit vector register: eight byte lanes. */
  datatype Lanes = Lanes(l0: Byte, l1: Byte, l2: Byte, l3: Byte, l4: Byte, l5: Byte, l6: Byte, l7: Byte)
  {
    function Bytes(): (v: seq<Byte>)
      ensures |v| == 8
    {
      [l0, l1, l2, l3, l4, l5, l6, l7]
    }
  }

  /** vld2.8: the even bytes of sixteen, and the odd ones. */
  function LoadEven(src: seq<Byte>, s: nat): Lanes
    requires s + 16 <= |src|
  {
    Lanes(src[s], src[s + 2], src[s + 4], src[s + 6], src[s + 8], src[s + 10], src[s + 12], src[s + 14])
  }

  function LoadOdd(src: seq<Byte>, s: nat): Lanes
    requires s + 16 <= |src|
  {
    Lanes(src[s + 1], src[s + 3], src[s + 5], src[s + 7], src[s + 9], src[s + 11], src[s + 13], src[s + 15])
  }

  function And(a: Lanes, b: Lanes): Lanes {
    Lanes(a.l0 & b.l0, a.l1 & b.l1, a.l2 & b.l2, a.l3 & b.l3, a.l4 & b.l4, a.l5 & b.l5, a.l6 & b.l6, a.l7 & b.l7)
  }

  function Or(a: Lanes, b: Lanes): Lanes {
    Lanes(a.l0 | b.l0, a.l1 | b.l1, a.l2 | b.l2, a.l3 | b.l3, a.l4 | b.l4, a.l5 | b.l5, a.l6 | b.l6, a.l7 | b.l7)
  }

  function ShiftRight4(a: Lanes): Lanes {
    Lanes(a.l0 >> 4, a.l1 >> 4, a.l2 >> 4, a.l3 >> 4, a.l4 >> 4, a.l5 >> 4, a.l6 >> 4, a.l7 >> 4)
  }

  const HIGH_NIBBLES := Lanes(0xf0, 0xf0, 0xf0, 0xf0, 0xf0, 0xf0, 0xf0, 0xf0)

  /** vand, vand, vshr, vorr on one pair of registers. */
  function PackLanes(even: Lanes, odd: Lanes): Lanes {
    Or(And(odd, HIGH_NIBBLES), ShiftRight4(And(even, HIGH_NIBBLES)))
  }

  /** One lane of it. */
  function PackLane(even: Byte, odd: Byte): Byte {
    (odd & 0xf0) | ((even & 0xf0) >> 4)
  }

  lemma PackLaneIsPackPair(a: Byte, b: Byte)
    ensures PackLane(a, b) == PackPair(a, b)
  {
  }

  lemma LaneByLane(e: Lanes, o: Lanes)
    ensures PackLanes(e, o)
         == Lanes(PackLane(e.l0, o.l0), PackLane(e.l1, o.l1), PackLane(e.l2, o.l2), PackLane(e.l3, o.l3),
                  PackLane(e.l4, o.l4), PackLane(e.l5, o.l5), PackLane(e.l6, o.l6), PackLane(e.l7, o.l7))
  {
  }

  /** The lanes are packed as eight pairs of pixels are. */
  lemma LanesArePairs(src: seq<Byte>, s: nat)
    requires s + 16 <= |src|
    ensures PackLanes(LoadEven(src, s), LoadOdd(src, s)).Bytes() == PairsFrom(src, s, 8)
  {
    hide PackPair, PackLane, PackLanes;
    LaneByLane(LoadEven(src, s), LoadOdd(src, s));
    forall k | 0 <= k < 8
      ensures PackLane(src[s + 2 * k], src[s + 2 * k + 1]) == PackPair(src[s + 2 * k], src[s + 2 * k + 1])
    {
      PackLaneIsPackPair(src[s + 2 * k], src[s + 2 * k + 1]);
    }
  }

  /** vst1.8: eight bytes. */
  method Store(dst: array<Byte>, at: nat, v: Lanes)
    requires at + 8 <= dst.Length
    modifies dst
    ensures dst[..] == Splice(old(dst[..]), at, v.Bytes())
  {
    var b := v.Bytes();
    forall k | 0 <= k < 8 { dst[at + k] := b[k]; }
  }

  /** Sixteen pixels to an iteration. The routine tests for the end only after an iteration and recognises the end
      of a row only by its exact length. */
  method NeonPack16(dst: array<Byte>, src: seq<Byte>, h: nat, w: nat, rowLength: nat)
    requires h > 0 && rowLength > 0 && rowLength % 16 == 0
    requires Fits(|src|, dst.Length, rowLength, w / 2, h)
    modifies dst
    ensures dst[..] == Packed(src, old(dst[..]), rowLength, w / 2, h, 0)
  {
    hide At, Packed, PackLanes, Splice, PairsFrom;
    ghost var before, stride, row, t, c := dst[..], w / 2, 0, 0, rowLength / 16;
    PackedNothing(src, before, rowLength, stride);
    AtZero(rowLength);
    AtZero(stride);
    var r0, r1, r9, r11, r3, r2 := 0, 0, 0, 0, 0, h * rowLength;
    TotalIs(h, rowLength);
    assert rowLength == 16 * c;
    while true
      invariant row < h && r3 == 16 * t && t < c
      invariant r11 == At(row, stride, 0) && r0 == r11 + 8 * t
      invariant r1 == r9 == At(row, rowLength, 0) + r3
      invariant dst[..] == Packed(src, before, rowLength, stride, row, 8 * t)
      decreases h - row, rowLength - r3
    {
      RowInside(|src|, dst.Length, rowLength, stride, h, row);
      AtOffset(row, rowLength);
      AtOffset(row, stride);
      NextAt(row, rowLength);
      NextAt(row, stride);
      PackedNextBytes(src, before, rowLength, stride, row, 8 * t, 8);
      LanesArePairs(src, r1);
      Store(dst, r0, PackLanes(LoadEven(src, r1), LoadOdd(src, r1)));
      r0, r1, r9, r3 := r0 + 8, r1 + 16, r9 + 16, r3 + 16;
      t := t + 1;
      if r3 == rowLength {
        PackedRowDone(src, before, rowLength, stride, row);
        r3, t := 0, 0;
        r11 := r11 + w / 2;
        r0 := r11;
        row := row + 1;
      }
      RowsBefore(row, h, rowLength, r3);
      if r9 >= r2 {
        break;
      }
    }
  }

  lemma TotalIs(h: nat, rowLength: nat)
    ensures h * rowLength == At(h, rowLength, 0)
  {
  }

  /** The pixel counter reaches the total only after the last row. */
  lemma RowsBefore(row: nat, h: nat, rowLength: nat, r3: nat)
    requires row <= h && r3 < rowLength
    ensures row < h ==> At(row, rowLength, 0) + r3 < At(h, rowLength, 0)
    ensures row == h ==> At(row, rowLength, 0) + r3 >= At(h, rowLength, 0)
  {
    if row < h {
      NextAt(row, rowLength);
      Grow(row + 1, h, rowLength);
    }
  }

  /** Two loads, two packs, two stores. */
  method PackBlock32(dst: array<Byte>, src: seq<Byte>, r0: nat, r1: nat,
                     ghost before: seq<Byte>, ghost width: nat, ghost stride: nat, ghost row: nat, ghost p: nat)
    requires width / 2 <= stride && p + 16 <= width / 2
    requires r1 == At(row, width, 0) + 2 * p && r1 + 32 <= |src|
    requires r0 == At(row, stride, 0) + p && r0 + 16 <= dst.Length
    requires |before| == dst.Length && dst[..] == Packed(src, before, width, stride, row, p)
    modifies dst
    ensures dst[..] == Packed(src, before, width, stride, row, p + 16)
  {
    hide At, Packed, PackLanes, Splice, PairsFrom;
    AtOffset(row, width);
    AtOffset(row, stride);
    PackedNextBytes(src, before, width, stride, row, p, 8);
    PackedNextBytes(src, before, width, stride, row, p + 8, 8);
    LanesArePairs(src, r1);
    LanesArePairs(src, r1 + 16);
    var low := PackLanes(LoadEven(src, r1), LoadOdd(src, r1));
    var high := PackLanes(LoadEven(src, r1 + 16), LoadOdd(src, r1 + 16));
    Store(dst, r0, low);
    Store(dst, r0 + 8, high);
  }

  /** Thirty-two pixels to an iteration, in two halves. */
  method NeonPack32(dst: array<Byte>, src: seq<Byte>, h: nat, w: nat, rowLength: nat)
    requires h > 0 && rowLength > 0 && rowLength % 32 == 0
    requires Fits(|src|, dst.Length, rowLength, w / 2, h)
    modifies dst
    ensures dst[..] == Packed(src, old(dst[..]), rowLength, w / 2, h, 0)
  {
    hide At, Packed, PackLanes, Splice, PairsFrom;
    ghost var before, stride, row, t, c := dst[..], w / 2, 0, 0, rowLength / 32;
    PackedNothing(src, before, rowLength, stride);
    AtZero(rowLength);
    AtZero(stride);
    var r0, r1, r9, r11, r3, r2 := 0, 0, 0, 0, 0, h * rowLength;
    TotalIs(h, rowLength);
    assert rowLength == 32 * c;
    while true
      invariant row < h && r3 == 32 * t && t < c
      invariant r11 == At(row, stride, 0) && r0 == r11 + 16 * t
      invariant r1 == r9 == At(row, rowLength, 0) + r3
      invariant dst[..] == Packed(src, before, rowLength, stride, row, 16 * t)
      decreases h - row, rowLength - r3
    {
      RowInside(|src|, dst.Length, rowLength, stride, h, row);
      AtOffset(row, rowLength);
      AtOffset(row, stride);
      NextAt(row, rowLength);
      NextAt(row, stride);
      PackBlock32(dst, src, r0, r1, before, rowLength, stride, row, 16 * t);
      r0, r1, r9, r3 := r0 + 16, r1 + 32, r9 + 32, r3 + 32;
      t := t + 1;
      if r3 == rowLength {
        PackedRowDone(src, before, rowLength, stride, row);
        r3, t := 0, 0;
        r11 := r11 + w / 2;
        r0 := r11;
        row := row + 1;
      }
      RowsBefore(row, h, rowLength, r3);
      if r9 >= r2 {
        break;
      }
    }
  }

  // ---- Reading a packed image ----

  /** Where the first of the two pixels is that belong to byte m, which lies in row m / stride. */
  function PixelOf(m: nat, width: nat, stride: nat): nat
    requires stride > 0
  {
    m / stride * width + 2 * (m % stride)
  }

  /** Every byte of every row holds the top four bits of its two pixels, the first in its low half; bytes outside the
      rows are untouched. */
  lemma PackedByte(src: seq<Byte>, before: seq<Byte>, width: nat, stride: nat, h: nat, m: nat)
    requires Fits(|src|, |before|, width, stride, h) && stride > 0 && m < |before|
    ensures var now := Packed(src, before, width, stride, h, 0)[m];
            var p := PixelOf(m, width, stride);
            if m / stride < h && m % stride < width / 2
            then p + 1 < |src| && now & 0x0f == src[p] >> 4 && now >> 4 == src[p + 1] >> 4
            else now == before[m]
  {
    var f, row, c := PackedPicture(src, width), m / stride, m % stride;
    assert m == At(row, stride, c);
    PaintRowsDone(before, Rows(stride), width / 2, f, h, [], [0]);
    PaintedAt(before, Rows(stride), width / 2, f, h, row, c);
    if row < h && c < width / 2 {
      RowInside(|src|, |before|, width, stride, h, row);
      AtOffset(row, width);
      PairOfPicture(src, width, row, c);
    }
    hide Painted, PackedPicture;
  }

  lemma PairOfPicture(src: seq<Byte>, width: nat, row: nat, c: nat)
    requires At(row, width, 2 * c) + 1 < |src|
    ensures var byte, p := PackedPicture(src, width)(row, c), row * width + 2 * c;
            p + 1 < |src| && byte & 0x0f == src[p] >> 4 && byte >> 4 == src[p + 1] >> 4
  {
    UnpackPair(src[At(row, width, 2 * c)], src[At(row, width, 2 * c) + 1]);
    hide PackPair;
  }

  lemma WholeRows(w: nat)
    requires w % 32 == 0
    ensures WordRow(w) == w && w / 2 * 2 == w && w / 8 * 4 == w / 2
  {
    BlocksOf32(w / 32);
  }

  lemma BlocksOf32(b: nat)
    ensures var w := 32 * b; WordRow(w) == w && w / 2 * 2 == w && w / 8 * 4 == w / 2
  {
    Split(4 * b, 8, 7);
    Split(4 * b, 8, 0);
    Split(16 * b, 2, 0);
  }

  /** On rows of whole blocks of 32 pixels, and with the destination's width that of the panel, the packers' images are
      one and the same: those of the word packer and of the byte packer are that of the two vector packers. */
  lemma PackersAgree(src: seq<Byte>, before: seq<Byte>, w: nat, h: nat)
    requires w % 32 == 0
    ensures Packed(src, before, WordRow(w), w / 8 * 4, h, 0) == Packed(src, before, w, w / 2, h, 0)
    ensures Packed(src, before, w / 2 * 2, w / 2, h, 0) == Packed(src, before, w, w / 2, h, 0)
  {
    WholeRows(w);
    hide Packed, WordRow;
  }
}
