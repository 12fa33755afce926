/** hwcomposer.cpp, `Luma8bit_to_4bit_row_2` and the row loop of `gray256_to_gray2_dither`. */
module DitherRow2 {
  import opened ErrorDiffusion
  import opened DitherLines

  /** The w pixels stored two to a 16-bit word from word `at` on. */
  function PixelPairs(src: seq<nat>, at: nat, w: nat): (px: seq<int>)
    requires at <= |src| && w <= 2 * (|src| - at)
    ensures |px| == w
    ensures forall k :: 0 <= k < w ==> 0 <= px[k] <= 255
  {
    seq(w, k requires 0 <= k < w => Byte(src[at + k / 2], k % 2))
  }

  lemma PairAt(src: seq<nat>, at: nat, w: nat, j: nat)
    requires at <= |src| && w <= 2 * (|src| - at) && 2 * j + 2 <= w
    ensures at + j < |src|
    ensures PixelPairs(src, at, w)[2 * j] == Byte(src[at + j], 0)
    ensures PixelPairs(src, at, w)[2 * j + 1] == Byte(src[at + j], 1)
  {
    assert (2 * j) / 2 == j && (2 * j) % 2 == 0;
    assert (2 * j + 1) / 2 == j && (2 * j + 1) % 2 == 1;
  }

  /** A byte holding two levels, the first in its low nibble. */
  ghost predicate HoldsPair(byte: nat, q: Quantizer, px: seq<int>, res: seq<int>, at: nat) {
    && at + 2 <= |px| && at + 2 <= |res|
    && byte < 256
    && Nibble(byte, 0) == Level(q, px, res, at)
    && Nibble(byte, 1) == Level(q, px, res, at + 1)
  }

  lemma PackPair(q: Quantizer, px: seq<int>, res: seq<int>, i: nat, g0: int, g1: int)
    requires i + 2 <= |px| && i + 2 <= |res|
    requires g0 == Level(q, px, res, i) && g1 == Level(q, px, res, i + 1)
    ensures g0 >= 0 && g1 >= 0 && HoldsPair(g1 * 0x10 + g0, q, px, res, i)
  {
    hide Level;
    assert Nibble(g1 * 0x10 + g0, 1) == Nibble((g1 * 0x10 + g0) / 16, 0);
  }

  // ---- Where a row stores ----

  /** The cells of the line being filled that the iteration for pixels i and i + 1 stores to. */
  function StoredAt(i: nat): set<nat> {
    (if i == 0 then {i, i + 1} else {i - 1, i, i + 1}) + {i, i + 1, i + 2}
  }

  /** Those that the first n iterations store to. */
  function StoredBy(n: nat): set<nat> {
    if n == 0 then {} else StoredBy(n - 1) + StoredAt(2 * (n - 1))
  }

  /** Those that a row of w pixels stores to; it takes two pixels at a time. */
  function Stored(w: nat): set<nat> {
    StoredBy((w + 1) / 2)
  }

  /** Every store of a row of w pixels lies within a line of n cells. */
  ghost predicate StoresFit(w: nat, n: nat) {
    forall m :: m in Stored(w) ==> m < n
  }

  lemma {:induction false} StoredCells(n: nat, m: nat)
    ensures m in StoredBy(n) <==> n > 0 && m <= 2 * n
  {
    if n > 0 {
      StoredCells(n - 1, m);
      StoredAtCells(2 * (n - 1), m);
      hide StoredAt;
    }
  }

  lemma StoredAtCells(i: nat, m: nat)
    ensures m in StoredAt(i) <==> (m + 1 == i || i <= m <= i + 2)
  {
  }

  /** A row of even width fits exactly when it is empty or the line has a cell to spare. */
  lemma StoresFitWhen(w: nat, n: nat)
    requires w % 2 == 0
    ensures StoresFit(w, n) <==> w == 0 || w < n
  {
    forall m: nat ensures m in Stored(w) <==> w > 0 && m <= w {
      StoredCells((w + 1) / 2, m);
    }
    assert w > 0 ==> w in Stored(w);
  }

  /** On a line that is exactly as long as the row, which is what the caller allocates for a rectangle as wide as the
      panel, the row stores one cell beyond the end. */
  lemma FullWidthOverflows(w: nat)
    requires w % 2 == 0 && w > 0
    ensures w in Stored(w) && !StoresFit(w, w)
  {
    StoredCells((w + 1) / 2, w);
  }

  /** Cells that no iteration stores to are left alone. */
  lemma OthersKept(q: Quantizer, w: nat, px: seq<int>, res: seq<int>, line: seq<int>, k: nat, m: nat)
    requires k <= |px| && k <= |res| && m < |line| && m !in Stored(k)
    ensures Line(q, Straight, w, true, px, res, line, k)[m] == line[m]
  {
    StoredCells((k + 1) / 2, m);
    BeyondKept(q, w, px, res, line, k, m);
    hide Line;
  }

  lemma {:induction false} BeyondKept(q: Quantizer, w: nat, px: seq<int>, res: seq<int>, line: seq<int>, k: nat, m: nat)
    requires k <= |px| && k <= |res| && m < |line| && (k == 0 || k < m)
    ensures Line(q, Straight, w, true, px, res, line, k)[m] == line[m]
  {
    if k > 0 {
      BeyondKept(q, w, px, res, line, k - 1, m);
      LastDeposit(q, w, px, res, line, k, m);
      hide Line;
    }
  }

  /** A line with a cell to spare gets the last pixel's lower right share there: the store is a real one. */
  lemma SpillStored(q: Quantizer, w: nat, px: seq<int>, res: seq<int>, line: seq<int>)
    requires 0 < w <= |px| && w <= |res| && w < |line|
    ensures Line(q, Straight, w, true, px, res, line, w)[w] == Short(line[w] + Share(Error(q, px, res, w - 1), 1))
  {
    BeyondKept(q, w, px, res, line, w - 1, w);
    DepositSpill(Line(q, Straight, w, true, px, res, line, w - 1), w, Error(q, px, res, w - 1));
    hide Error, Share, Short, Deposit;
  }

  lemma DepositSpill(line: seq<int>, w: nat, e: int)
    requires 0 < w < |line|
    ensures Deposit(Straight, w, true, line, w - 1, e)[w] == Short(line[w] + Share(e, 1))
  {
    hide Share, Short;
  }

  lemma LastDeposit(q: Quantizer, w: nat, px: seq<int>, res: seq<int>, line: seq<int>, k: nat, m: nat)
    requires 0 < k <= |px| && k <= |res| && k < m < |line|
    ensures Line(q, Straight, w, true, px, res, line, k)[m] == Line(q, Straight, w, true, px, res, line, k - 1)[m]
  {
    hide Error, Share, Cell;
  }

  /** The two pixels of one iteration. */
  method TwoPixels(srcData: nat, res0: array<int>, res1: array<int>, w: nat, i: nat, carry: int, threshold: int,
                   ghost px: seq<int>, ghost r0: seq<int>, ghost r1: seq<int>)
    returns (v0: int, g0: nat, g1: nat)
    requires res0 != res1 && i + 2 <= w <= res0.Length && i + 2 < res1.Length
    requires RowAt(TwoLevel(threshold), true, px, r0, r1, w, i, carry, res1[..], res0[..])
    requires px[i] == Byte(srcData, 0) && px[i + 1] == Byte(srcData, 1)
    modifies res0, res1
    ensures RowAt(TwoLevel(threshold), true, px, r0, r1, w, i + 2, v0, res1[..], res0[..])
    ensures g0 == Level(TwoLevel(threshold), px, r0, i) && g1 == Level(TwoLevel(threshold), px, r0, i + 1)
  {
    hide Line, Carry, Level, Error, Total, Clip, AddTo, Byte, Share, Deposit, Cleared, RowAt;
    var q := TwoLevel(threshold);
    PixelStep(q, true, px, r0, r1, w, i, carry, res1[..], res0[..]);
    var gTemp := Byte(srcData, 0) + res0[i] + carry;
    ClearCell(res0, i);
    gTemp := Clip(gTemp);
    g0 := if gTemp >= threshold then 0xf0 else 0x00;
    var e := gTemp - g0;
    v0 := Share(e, 7);
    var v1, v2, v3 := Share(e, 3), Share(e, 5), Share(e, 1);
    g0 := if gTemp >= threshold then 0x0f else 0x00;
    if i == 0 {
      AddShort(res1, i, v2);
      AddShort(res1, i + 1, v3);
    } else {
      AddThree(res1, i, v1, v2, v3);
    }

    PixelStep(q, true, px, r0, r1, w, i + 1, v0, res1[..], res0[..]);
    gTemp := Byte(srcData, 1) + res0[i + 1] + v0;
    ClearCell(res0, i + 1);
    gTemp := Clip(gTemp);
    g1 := if gTemp >= threshold then 0xf0 else 0x00;
    e := gTemp - g1;
    v0 := Share(e, 7);
    v1, v2, v3 := Share(e, 3), Share(e, 5), Share(e, 1);
    g1 := if gTemp >= threshold then 0x0f else 0x00;
    AddThree(res1, i + 1, v1, v2, v3);
  }

  /** The first n pairs of levels of a row are written from byte `at` on, and no other byte has changed. */
  ghost predicate PairsWritten(before: seq<nat>, now: seq<nat>, at: nat, q: Quantizer, px: seq<int>, r0: seq<int>,
                               n: nat) {
    && |now| == |before| && at + n <= |now|
    && (forall j :: 0 <= j < n ==> HoldsPair(now[at + j], q, px, r0, 2 * j))
    && (forall m :: 0 <= m < |now| && !(at <= m < at + n) ==> now[m] == before[m])
  }

  lemma NextPair(before: seq<nat>, now: seq<nat>, at: nat, q: Quantizer, px: seq<int>, r0: seq<int>, n: nat, byte: nat)
    requires PairsWritten(before, now, at, q, px, r0, n) && at + n < |now| && HoldsPair(byte, q, px, r0, 2 * n)
    ensures PairsWritten(before, now[at + n := byte], at, q, px, r0, n + 1)
  {
    hide HoldsPair;
  }

  lemma NoPair(before: seq<nat>, at: nat, q: Quantizer, px: seq<int>, r0: seq<int>)
    requires at <= |before|
    ensures PairsWritten(before, before, at, q, px, r0, 0)
  {
  }

  /** One row, two pixels to an iteration. The last pixel's lower right share goes one cell beyond the row. */
  method Row2(src: seq<nat>, srcAt: nat, dst: array<nat>, dstAt: nat, res0: array<int>, res1: array<int>, w: nat,
              threshold: int)
    requires w % 2 == 0
    requires srcAt <= |src| && w <= 2 * (|src| - srcAt)
    requires dstAt <= dst.Length && w <= 2 * (dst.Length - dstAt)
    requires w <= res0.Length && w <= res1.Length && StoresFit(w, res1.Length)
    requires res0 != res1 && dst as object != res0 && dst as object != res1
    modifies dst, res0, res1
    ensures PairsWritten(old(dst[..]), dst[..], dstAt, TwoLevel(threshold), PixelPairs(src, srcAt, w), old(res0[..]),
                         w / 2)
    ensures res1[..]
         == Line(TwoLevel(threshold), Straight, w, true, PixelPairs(src, srcAt, w), old(res0[..]), old(res1[..]), w)
    ensures Cleared(old(res0[..]), res0[..], w)
  {
    StoresFitWhen(w, res1.Length);
    Row2Pairs(src, srcAt, dst, dstAt, res0, res1, w, threshold, w / 2);
  }

  method Row2Pairs(src: seq<nat>, srcAt: nat, dst: array<nat>, dstAt: nat, res0: array<int>, res1: array<int>, w: nat,
                   threshold: int, ghost half: nat)
    requires w == 2 * half
    requires srcAt + half <= |src| && dstAt + half <= dst.Length
    requires w <= res0.Length && w <= res1.Length && (w > 0 ==> w < res1.Length)
    requires res0 != res1 && dst as object != res0 && dst as object != res1
    modifies dst, res0, res1
    ensures PairsWritten(old(dst[..]), dst[..], dstAt, TwoLevel(threshold), PixelPairs(src, srcAt, w), old(res0[..]),
                         half)
    ensures res1[..]
         == Line(TwoLevel(threshold), Straight, w, true, PixelPairs(src, srcAt, w), old(res0[..]), old(res1[..]), w)
    ensures Cleared(old(res0[..]), res0[..], w)
  {
    hide *;
    var q := TwoLevel(threshold);
    ghost var px := PixelPairs(src, srcAt, w);
    ghost var r0, r1, bytes := res0[..], res1[..], dst[..];
    ghost var n: nat := 0;
    var v0 := 0;
    var s, d, i := srcAt, dstAt, 0;
    RowStart(q, true, px, r0, r1, w);
    NoPair(bytes, dstAt, q, px, r0);
    while i < w
      invariant i == 2 * n && s == srcAt + n && d == dstAt + n && n <= half
      invariant RowAt(q, true, px, r0, r1, w, i, v0, res1[..], res0[..])
      invariant PairsWritten(bytes, dst[..], dstAt, q, px, r0, n)
    {
      PairAt(src, srcAt, w, n);
      var g0, g1;
      v0, g0, g1 := TwoPixels(src[s], res0, res1, w, i, v0, threshold, px, r0, r1);
      PackPair(q, px, r0, i, g0, g1);
      var byte: nat := g1 * 0x10 + g0;
      NextPair(bytes, dst[..], dstAt, q, px, r0, n, byte);
      ghost var now := dst[..];
      dst[d] := byte;
      assert dst[..] == now[d := byte];
      s, d, i := s + 1, d + 1, i + 2;
      n := n + 1;
    }
    RowEnd(q, true, px, r0, r1, w, v0, res1[..], res0[..]);
  }

  // ---- The rows of one rectangle ----

  function ClearedTo(line: seq<int>, w: nat): (cleared: seq<int>)
    ensures |cleared| == |line|
  {
    seq(|line|, m requires 0 <= m < |line| => if m < w then 0 else line[m])
  }

  /** The line that the next row consumes and the line that it will fill. */
  datatype Lines = Lines(current: seq<int>, next: seq<int>)

  /** The two lines after the first n rows, both cleared at first. */
  function LinesAfter(rows: seq<seq<int>>, w: nat, size: nat, n: nat): (lines: Lines)
    requires n <= |rows| && w <= size
    requires forall r :: 0 <= r < |rows| ==> |rows[r]| == w
    ensures |lines.current| == size && |lines.next| == size
  {
    if n == 0 then Lines(seq(size, _ => 0), seq(size, _ => 0))
    else
      var before := LinesAfter(rows, w, size, n - 1);
      Lines(Line(TwoLevel(0x80), Straight, w, true, rows[n - 1], before.current, before.next, w),
            ClearedTo(before.current, w))
  }

  /** Where the row at distance r from the first one starts. */
  function RowStartAt(offset: nat, r: nat, stride: nat): nat {
    offset + r * stride
  }

  ghost predicate RowFits(n: nat, offset: nat, stride: nat, w: nat, r: nat) {
    RowStartAt(offset, r, stride) <= n && w <= 2 * (n - RowStartAt(offset, r, stride))
  }

  /** `rows` are the pixels of consecutive rows of the source. */
  ghost predicate IsRows(src: seq<nat>, offset: nat, stride: nat, w: nat, rows: seq<seq<int>>) {
    && (forall r :: 0 <= r < |rows| ==> |rows[r]| == w)
    && forall r: nat :: r < |rows| ==>
        RowFits(|src|, offset, stride, w, r) && rows[r] == PixelPairs(src, RowStartAt(offset, r, stride), w)
  }

  /** The buffer of row h's parity holds the current line, the other one the next. */
  ghost predicate Buffers(even: seq<int>, odd: seq<int>, h: nat, lines: Lines) {
    if h % 2 == 0 then even == lines.current && odd == lines.next
    else odd == lines.current && even == lines.next
  }

  /** Row r of the destination holds the levels of row r under the line that the rows above left for it. */
  ghost predicate RowHolds(dst: seq<nat>, offset: nat, stride: nat, rows: seq<seq<int>>, w: nat, size: nat, r: nat)
    requires r < |rows| && w <= size && forall r :: 0 <= r < |rows| ==> |rows[r]| == w
  {
    && RowFits(|dst|, offset, stride, w, r)
    && forall j :: 0 <= j < w / 2 ==>
        HoldsPair(dst[RowStartAt(offset, r, stride) + j], TwoLevel(0x80), rows[r], LinesAfter(rows, w, size, r).current,
                  2 * j)
  }

  /** One turn of the row loop. */
  method DitherOneRow(src: seq<nat>, ghost offset0: nat, offset: nat, ghost stride: nat,
                      dst: array<nat>, ghost offsetDst0: nat, offsetDst: nat, ghost strideDst: nat,
                      res0: array<int>, res1: array<int>, w: nat, ghost rows: seq<seq<int>>, ghost r: nat)
    requires w % 2 == 0 && w <= res0.Length == res1.Length && w <= 2 * strideDst && StoresFit(w, res0.Length)
    requires res0 != res1 && dst as object != res0 && dst as object != res1
    requires IsRows(src, offset0, stride, w, rows) && r < |rows|
    requires offset == RowStartAt(offset0, r, stride) && offsetDst == RowStartAt(offsetDst0, r, strideDst)
    requires RowFits(dst.Length, offsetDst0, strideDst, w, r)
    requires res0[..] == LinesAfter(rows, w, res0.Length, r).current
    requires res1[..] == LinesAfter(rows, w, res0.Length, r).next
    requires forall q: nat :: q < r ==> RowHolds(dst[..], offsetDst0, strideDst, rows, w, res0.Length, q)
    modifies dst, res0, res1
    ensures res1[..] == LinesAfter(rows, w, res0.Length, r + 1).current
    ensures res0[..] == LinesAfter(rows, w, res0.Length, r + 1).next
    ensures forall q: nat :: q < r + 1 ==> RowHolds(dst[..], offsetDst0, strideDst, rows, w, res0.Length, q)
  {
    hide StoresFit, Stored, PairsWritten;
    hide Line, PixelPairs, LinesAfter, HoldsPair, Cleared, RowStartAt, RowHolds;
    RowFitsAt(|src|, offset0, stride, w, r);
    RowFitsAt(dst.Length, offsetDst0, strideDst, w, r);
    ghost var before, size := dst[..], res0.Length;
    Row2(src, offset, dst, offsetDst, res0, res1, w, 0x80);
    LinesStep(rows, w, size, r, res0[..]);
    RowsHold(before, dst[..], offsetDst0, strideDst, rows, w, size, r);
  }

  /** Row h takes its residuals from the buffer of its parity and leaves the next row's in the other. */
  method DitherRowOfRect(src: seq<nat>, ghost offset0: nat, offset: nat, ghost stride: nat,
                         dst: array<nat>, ghost offsetDst0: nat, offsetDst: nat, ghost strideDst: nat,
                         even: array<int>, odd: array<int>, h: nat, w: nat, ghost rows: seq<seq<int>>, ghost r: nat)
    requires w % 2 == 0 && w <= even.Length == odd.Length && w <= 2 * strideDst && StoresFit(w, even.Length)
    requires even != odd && dst as object != even && dst as object != odd
    requires IsRows(src, offset0, stride, w, rows) && r < |rows|
    requires offset == RowStartAt(offset0, r, stride) && offsetDst == RowStartAt(offsetDst0, r, strideDst)
    requires RowFits(dst.Length, offsetDst0, strideDst, w, r)
    requires Buffers(even[..], odd[..], h, LinesAfter(rows, w, even.Length, r))
    requires forall q: nat :: q < r ==> RowHolds(dst[..], offsetDst0, strideDst, rows, w, even.Length, q)
    modifies dst, even, odd
    ensures Buffers(even[..], odd[..], h + 1, LinesAfter(rows, w, even.Length, r + 1))
    ensures forall q: nat :: q < r + 1 ==> RowHolds(dst[..], offsetDst0, strideDst, rows, w, even.Length, q)
  {
    hide LinesAfter, RowFits, RowStartAt, RowHolds, Buffers, PixelPairs, StoresFit;
    BuffersAre(even[..], odd[..], h, LinesAfter(rows, w, even.Length, r));
    if h % 2 == 0 {
      DitherOneRow(src, offset0, offset, stride, dst, offsetDst0, offsetDst, strideDst, even, odd, w, rows, r);
    } else {
      DitherOneRow(src, offset0, offset, stride, dst, offsetDst0, offsetDst, strideDst, odd, even, w, rows, r);
    }
    BuffersAre(even[..], odd[..], h + 1, LinesAfter(rows, w, even.Length, r + 1));
  }

  /** How many rows a rectangle has, whose last row is `bottom` or the last of the panel. */
  function RowCount(top: nat, bottom: int, panelH: nat): nat {
    if top > bottom || top >= panelH then 0 else (if bottom < panelH then bottom + 1 else panelH) - top
  }

  /** Rows from the top on, as far as the bottom and the panel go. */
  lemma RowsOfRect(top: nat, bottom: int, panelH: nat, h: nat)
    requires top <= h
    ensures h < top + RowCount(top, bottom, panelH) <==> h <= bottom && h < panelH
  {
  }

  /** The loop over the rows of one rectangle. */
  method DitherRows(src: seq<nat>, offset0: nat, stride: nat, dst: array<nat>, offsetDst0: nat, strideDst: nat,
                    even: array<int>, odd: array<int>, top: nat, bottom: int, panelH: nat, w: nat,
                    ghost rows: seq<seq<int>>)
    requires w % 2 == 0 && w <= even.Length == odd.Length && w <= 2 * strideDst
    requires |rows| > 0 ==> StoresFit(w, even.Length)
    requires even != odd && dst as object != even && dst as object != odd
    requires IsRows(src, offset0, stride, w, rows) && |rows| == RowCount(top, bottom, panelH)
    requires forall r: nat :: r < |rows| ==> RowFits(dst.Length, offsetDst0, strideDst, w, r)
    requires Buffers(even[..], odd[..], top, LinesAfter(rows, w, even.Length, 0))
    modifies dst, even, odd
    ensures Buffers(even[..], odd[..], top + |rows|, LinesAfter(rows, w, even.Length, |rows|))
    ensures forall r: nat :: r < |rows| ==> RowHolds(dst[..], offsetDst0, strideDst, rows, w, even.Length, r)
  {
    hide LinesAfter, RowFits, RowStartAt, RowHolds, Buffers, PixelPairs, StoresFit;
    var offset, offsetDst, h := offset0, offsetDst0, top;
    ghost var size := even.Length;
    FirstRow(offset, stride);
    FirstRow(offsetDst, strideDst);
    while h <= bottom && h < panelH
      invariant top <= h <= top + |rows|
      invariant h < top + |rows| <==> h <= bottom && h < panelH
      invariant offset == RowStartAt(offset0, h - top, stride)
      invariant offsetDst == RowStartAt(offsetDst0, h - top, strideDst)
      invariant Buffers(even[..], odd[..], h, LinesAfter(rows, w, size, h - top))
      invariant forall r: nat :: r < h - top ==> RowHolds(dst[..], offsetDst0, strideDst, rows, w, size, r)
    {
      NextRow(offset0, h - top, stride);
      NextRow(offsetDst0, h - top, strideDst);
      DitherRowOfRect(src, offset0, offset, stride, dst, offsetDst0, offsetDst, strideDst, even, odd, h, w, rows,
                      h - top);
      offset, offsetDst, h := offset + stride, offsetDst + strideDst, h + 1;
    }
  }

  /** One rectangle. If a row stores beyond its line, the first one does: a fault. */
  method DitherRect(src: seq<nat>, offset: nat, stride: nat, dst: array<nat>, offsetDst: nat, strideDst: nat,
                    even: array<int>, odd: array<int>, top: nat, bottom: int, panelH: nat, w: nat,
                    ghost rows: seq<seq<int>>) returns (fault: bool)
    requires w % 2 == 0 && w <= even.Length == odd.Length && w <= 2 * strideDst
    requires even != odd && dst as object != even && dst as object != odd
    requires IsRows(src, offset, stride, w, rows) && |rows| == RowCount(top, bottom, panelH)
    requires forall r: nat :: r < |rows| ==> RowFits(dst.Length, offsetDst, strideDst, w, r)
    modifies dst, even, odd
    ensures fault <==> |rows| > 0 && !StoresFit(w, even.Length)
    ensures !fault ==> Buffers(even[..], odd[..], top + |rows|, LinesAfter(rows, w, even.Length, |rows|))
    ensures !fault ==> forall r: nat :: r < |rows| ==> RowHolds(dst[..], offsetDst, strideDst, rows, w, even.Length, r)
  {
    hide LinesAfter, RowFits, RowStartAt, RowHolds, Buffers, PixelPairs, StoresFit;
    ClearLines(even, odd, top, rows, w);
    StoresFitWhen(w, even.Length);
    fault := top <= bottom && top < panelH && w > 0 && even.Length <= w;
    if !fault {
      DitherRows(src, offset, stride, dst, offsetDst, strideDst, even, odd, top, bottom, panelH, w, rows);
    }
  }

  method ClearLines(even: array<int>, odd: array<int>, ghost top: nat, ghost rows: seq<seq<int>>, ghost w: nat)
    requires even != odd && w <= even.Length == odd.Length && forall r :: 0 <= r < |rows| ==> |rows[r]| == w
    modifies even, odd
    ensures Buffers(even[..], odd[..], top, LinesAfter(rows, w, even.Length, 0))
  {
    hide Buffers, LinesAfter;
    ClearLine(even);
    ClearLine(odd);
    BuffersStart(even[..], odd[..], top, rows, w);
  }

  method ClearLine(line: array<int>)
    modifies line
    ensures forall m :: 0 <= m < line.Length ==> line[m] == 0
  {
    forall m | 0 <= m < line.Length { line[m] := 0; }
  }

  lemma BuffersAre(even: seq<int>, odd: seq<int>, h: nat, lines: Lines)
    ensures Buffers(even, odd, h, lines) <==>
      if h % 2 == 0 then even == lines.current && odd == lines.next else odd == lines.current && even == lines.next
  {
  }

  lemma FirstRow(offset: nat, stride: nat)
    ensures RowStartAt(offset, 0, stride) == offset
  {
  }

  lemma NextRow(offset: nat, r: nat, stride: nat)
    ensures RowStartAt(offset, r + 1, stride) == RowStartAt(offset, r, stride) + stride
  {
  }

  lemma {:induction false} LaterRow(offset: nat, q: nat, r: nat, stride: nat)
    requires q < r
    ensures RowStartAt(offset, q, stride) + stride <= RowStartAt(offset, r, stride)
  {
    NextRow(offset, r - 1, stride);
    if q < r - 1 {
      LaterRow(offset, q, r - 1, stride);
    }
  }

  lemma RowFitsAt(n: nat, offset: nat, stride: nat, w: nat, r: nat)
    requires RowFits(n, offset, stride, w, r)
    ensures RowStartAt(offset, r, stride) <= n && w <= 2 * (n - RowStartAt(offset, r, stride))
  {
  }

  lemma BuffersStart(even: seq<int>, odd: seq<int>, top: nat, rows: seq<seq<int>>, w: nat)
    requires |even| == |odd| && w <= |even|
    requires forall m :: 0 <= m < |even| ==> even[m] == 0 && odd[m] == 0
    requires forall r :: 0 <= r < |rows| ==> |rows[r]| == w
    ensures Buffers(even, odd, top, LinesAfter(rows, w, |even|, 0))
  {
  }

  lemma LinesStep(rows: seq<seq<int>>, w: nat, size: nat, r: nat, cells: seq<int>)
    requires r < |rows| && w <= size
    requires forall r :: 0 <= r < |rows| ==> |rows[r]| == w
    requires Cleared(LinesAfter(rows, w, size, r).current, cells, w)
    ensures LinesAfter(rows, w, size, r + 1).next == cells
    ensures LinesAfter(rows, w, size, r + 1).current
         == Line(TwoLevel(0x80), Straight, w, true, rows[r], LinesAfter(rows, w, size, r).current,
                 LinesAfter(rows, w, size, r).next, w)
  {
  }

  lemma RowsHold(before: seq<nat>, now: seq<nat>, offset: nat, stride: nat, rows: seq<seq<int>>, w: nat, size: nat,
                 r: nat)
    requires |before| == |now| && w <= 2 * stride
    requires r < |rows| && w <= size && forall r :: 0 <= r < |rows| ==> |rows[r]| == w
    requires RowFits(|now|, offset, stride, w, r)
    requires PairsWritten(before, now, RowStartAt(offset, r, stride), TwoLevel(0x80), rows[r],
                          LinesAfter(rows, w, size, r).current, w / 2)
    requires forall q: nat :: q < r ==> RowHolds(before, offset, stride, rows, w, size, q)
    ensures forall q: nat :: q < r + 1 ==> RowHolds(now, offset, stride, rows, w, size, q)
  {
    hide LinesAfter, HoldsPair, RowStartAt;
    forall q: nat | q < r ensures RowHolds(now, offset, stride, rows, w, size, q) {
      assert RowHolds(before, offset, stride, rows, w, size, q);
      LaterRow(offset, q, r, stride);
    }
  }
}
