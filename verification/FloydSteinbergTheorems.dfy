/** What the dither loops write is Floyd and Steinberg's diffusion of the image's pixels, whatever the image. */
module FloydSteinbergTheorems {
  import opened ErrorDiffusion
  import FS = FloydSteinberg
  import opened DitherLines
  import opened DitherRow16
  import DitherRow2
  import opened DitherTheorems
  import opened DitherArm

  // ---- One pixel ----

  /** Level and error make up the pixel with what has been left for it, or white where that is more. */
  lemma LevelAndError(q: Quantizer, px: seq<int>, res: seq<int>, k: nat)
    requires k < |px| && k < |res|
    ensures var t := px[k] + res[k] + if k == 0 then 0 else Error(q, px, res, k - 1) * 7 / 16;
            16 * Level(q, px, res, k) + Error(q, px, res, k) == if t > 255 then 255 else t
  {
    var g := Total(q, px, res, k);
    assert Quantize(q, g) == 16 * (Quantize(q, g) / 16);
    assert k > 0 ==> Carry(q, px, res, k) == Error(q, px, res, k - 1) * 7 / 16;
    hide Quantize, Carry;
  }

  /** The loops' pixels are the reference's. */
  ghost predicate Agree(q: Quantizer, s: FS.Shades, px: seq<int>, res: seq<int>, above: seq<int>, k: nat)
    requires k < |px| && k < |res| && k < |above|
  {
    && Total(q, px, res, k) == FS.Value(s, px, above, k)
    && Error(q, px, res, k) == FS.Loss(s, px, above, k)
    && Level(q, px, res, k) == FS.Kept(s, FS.Value(s, px, above, k)) / 16
  }

  lemma AgreeHere(q: Quantizer, s: FS.Shades, px: seq<int>, res: seq<int>, above: seq<int>, k: nat)
    requires k < |px| && k < |res| && k < |above| && res[k] == above[k]
    requires k > 0 ==> Error(q, px, res, k - 1) == FS.Loss(s, px, above, k - 1)
    requires Quantize(q, Total(q, px, res, k)) == FS.Kept(s, Total(q, px, res, k))
    ensures Agree(q, s, px, res, above, k)
  {
    TotalIs(q, px, res, k);
    ValueIs(s, px, above, k);
    hide Carry, Quantize, FS.Kept, Total, FS.Value;
  }

  lemma TotalIs(q: Quantizer, px: seq<int>, res: seq<int>, k: nat)
    requires k < |px| && k < |res|
    ensures var t := px[k] + res[k] + if k == 0 then 0 else 7 * Error(q, px, res, k - 1) / 16;
            Total(q, px, res, k) == if t > 255 then 255 else t
  {
    hide Error;
  }

  lemma ValueIs(s: FS.Shades, px: seq<int>, above: seq<int>, k: nat)
    requires k < |px| && k < |above|
    ensures var t := px[k] + above[k] + if k == 0 then 0 else 7 * FS.Loss(s, px, above, k - 1) / 16;
            FS.Value(s, px, above, k) == if t > 255 then 255 else t
  {
    hide FS.Loss;
  }

  lemma {:induction false} GreyAgrees(px: seq<int>, res: seq<int>, above: seq<int>, k: nat)
    requires k < |px| && k < |res| && k < |above|
    requires forall i :: 0 <= i <= k ==> 0 <= px[i] <= 255 && res[i] == above[i] >= 0
    ensures Agree(Gray16, FS.Sixteen, px, res, above, k) && 0 <= Error(Gray16, px, res, k) < 16
  {
    if k > 0 { GreyAgrees(px, res, above, k - 1); }
    var t := Total(Gray16, px, res, k);
    CarryNotNegative(px, res, k);
    assert 0 <= t <= 255 by { hide Carry; }
    GreyKept(t);
    AgreeHere(Gray16, FS.Sixteen, px, res, above, k);
    hide HighNibble, FS.Value, Total;
  }

  lemma CarryNotNegative(px: seq<int>, res: seq<int>, k: nat)
    requires k < |px| && k < |res| && (k > 0 ==> 0 <= Error(Gray16, px, res, k - 1))
    ensures 0 <= Carry(Gray16, px, res, k)
  {
    hide Error;
  }

  lemma GreyKept(t: int)
    requires 0 <= t <= 255
    ensures HighNibble(t) == FS.Kept(FS.Sixteen, t) && 0 <= t - HighNibble(t) < 16
  {
  }

  lemma {:induction false} TwoAgrees(px: seq<int>, res: seq<int>, above: seq<int>, k: nat)
    requires k < |px| && k < |res| && k < |above| && forall i :: 0 <= i <= k ==> res[i] == above[i]
    ensures Agree(TwoLevel(0x80), FS.Two, px, res, above, k)
  {
    if k > 0 { TwoAgrees(px, res, above, k - 1); }
    AgreeHere(TwoLevel(0x80), FS.Two, px, res, above, k);
  }

  // ---- One row: what a cell of the next line receives ----

  /** What pixel j adds to cell m of the line being filled. */
  function Part(l: Layout, w: nat, spill: bool, m: nat, j: nat, e: int): int {
    (if m == Pos(l, j) then Share(e, 5) else 0)
    + (if j > 0 && m == Pos(l, j) - 1 then Share(e, 3) else 0)
    + (if (spill || j + 1 < w) && m == Pos(l, j) + 1 then Share(e, 1) else 0)
  }

  /** What the first k pixels add to it. */
  function Parts(q: Quantizer, l: Layout, w: nat, spill: bool, px: seq<int>, res: seq<int>, m: nat, k: nat): int
    requires k <= |px| && k <= |res|
  {
    if k == 0 then 0
    else Parts(q, l, w, spill, px, res, m, k - 1) + Part(l, w, spill, m, k - 1, Error(q, px, res, k - 1))
  }

  lemma CellOfCell(l: Layout, x: int, y: int)
    ensures Cell(l, Cell(l, x) + y) == Cell(l, x + y)
  {
    match l
    case Straight =>
      ShortOfShort(x, y);
    case HalfStep =>
      HalfOfHalf(x, y);
  }

  lemma ShortOfShort(x: int, y: int)
    ensures Short(Short(x) + y) == Short(x + y)
  {
    var a, b := x + 0x8000, y;
    assert (a % 0x1_0000 + b) % 0x1_0000 == (a + b) % 0x1_0000;
  }

  lemma HalfOfHalf(x: int, y: int)
    ensures Half(Half(x) + y) == Half(x + y)
  {
  }

  lemma AddedAt(l: Layout, line: seq<int>, m: int, v: int, i: nat)
    requires i < |line|
    ensures |AddTo(l, line, m, v)| == |line|
    ensures AddTo(l, line, m, v)[i] == if i == m then Cell(l, line[i] + v) else line[i]
  {
  }

  lemma DepositedAt(l: Layout, w: nat, spill: bool, line: seq<int>, k: nat, e: int, m: nat)
    requires m < |line| && Cell(l, line[m]) == line[m]
    ensures Deposit(l, w, spill, line, k, e)[m] == Cell(l, line[m] + Part(l, w, spill, m, k, e))
  {
    hide AddTo, Cell, Share, Pos;
    var p: int := Pos(l, k);
    var a := if k > 0 then AddTo(l, line, p - 1, Share(e, 3)) else line;
    var b := AddTo(l, a, p, Share(e, 5));
    AddedAt(l, line, p - 1, Share(e, 3), m);
    AddedAt(l, a, p, Share(e, 5), m);
    AddedAt(l, b, p + 1, Share(e, 1), m);
  }

  lemma NothingYet(q: Quantizer, l: Layout, w: nat, spill: bool, px: seq<int>, res: seq<int>, line0: seq<int>, m: nat)
    ensures Line(q, l, w, spill, px, res, line0, 0) == line0 && Parts(q, l, w, spill, px, res, m, 0) == 0
  {
  }

  lemma OnePixelMore(q: Quantizer, l: Layout, w: nat, spill: bool, px: seq<int>, res: seq<int>, line0: seq<int>, k: nat,
                     m: nat)
    requires k < |px| && k < |res|
    ensures Line(q, l, w, spill, px, res, line0, k + 1)
         == Deposit(l, w, spill, Line(q, l, w, spill, px, res, line0, k), k, Error(q, px, res, k))
    ensures Parts(q, l, w, spill, px, res, m, k + 1)
         == Parts(q, l, w, spill, px, res, m, k) + Part(l, w, spill, m, k, Error(q, px, res, k))
  {
    hide Deposit, Part, Error;
  }

  /** Whatever is stored cell by cell, a cell ends up with the sum of what it receives, as far as it can hold it. */
  lemma {:induction false} LineGathers(q: Quantizer, l: Layout, w: nat, spill: bool, px: seq<int>, res: seq<int>,
                                       line0: seq<int>, k: nat, m: nat)
    requires k <= |px| && k <= |res| && m < |line0| && Cell(l, line0[m]) == line0[m]
    ensures Line(q, l, w, spill, px, res, line0, k)[m] == Cell(l, line0[m] + Parts(q, l, w, spill, px, res, m, k))
  {
    hide *;
    if k == 0 {
      NothingYet(q, l, w, spill, px, res, line0, m);
    } else {
      var e, sum := Error(q, px, res, k - 1), line0[m] + Parts(q, l, w, spill, px, res, m, k - 1);
      OnePixelMore(q, l, w, spill, px, res, line0, k - 1, m);
      LineGathers(q, l, w, spill, px, res, line0, k - 1, m);
      CellOfCell(l, sum, 0);
      DepositedAt(l, w, spill, Line(q, l, w, spill, px, res, line0, k - 1), k - 1, e, m);
      CellOfCell(l, sum, Part(l, w, spill, m, k - 1, e));
    }
  }

  lemma {:induction false} StraightParts(q: Quantizer, w: nat, spill: bool, px: seq<int>, res: seq<int>, m: nat, k: nat)
    requires m < w && k <= w <= |px| && w <= |res|
    ensures Parts(q, Straight, w, spill, px, res, m, k)
         == (if m < k then Share(Error(q, px, res, m), 5) else 0)
          + (if m + 1 < k then Share(Error(q, px, res, m + 1), 3) else 0)
          + (if 0 < m <= k then Share(Error(q, px, res, m - 1), 1) else 0)
  {
    if k > 0 {
      StraightParts(q, w, spill, px, res, m, k - 1);
      hide Error, Share;
    }
  }

  lemma ShortIsSigned(x: int)
    ensures Short(x) == FS.Signed16(x)
  {
  }

  lemma CellHanded(q: Quantizer, s: FS.Shades, w: nat, spill: bool, px: seq<int>, res: seq<int>, above: seq<int>,
                   line0: seq<int>, m: nat)
    requires w == |px| == |above| && w <= |res| && m < w && m < |line0| && line0[m] == 0
    requires forall k :: 0 <= k < w ==> Agree(q, s, px, res, above, k)
    ensures Line(q, Straight, w, spill, px, res, line0, w)[m] == FS.Signed16(FS.Handed(s, px, above, m))
  {
    assert line0[m] == 0 && Cell(Straight, 0) == 0;
    hide *;
    LineGathers(q, Straight, w, spill, px, res, line0, w, m);
    HandedParts(q, s, w, spill, px, res, above, m);
    ShortCell(FS.Handed(s, px, above, m));
  }

  lemma ShortCell(x: int)
    ensures Cell(Straight, x) == FS.Signed16(x)
  {
    ShortIsSigned(x);
    hide Short, FS.Signed16;
  }

  lemma HandedParts(q: Quantizer, s: FS.Shades, w: nat, spill: bool, px: seq<int>, res: seq<int>, above: seq<int>,
                    m: nat)
    requires w == |px| == |above| && w <= |res| && m < w
    requires forall k :: 0 <= k < w ==> Agree(q, s, px, res, above, k)
    ensures Parts(q, Straight, w, spill, px, res, m, w) == FS.Handed(s, px, above, m)
  {
    hide Error, FS.Loss, Parts, Agree, Share;
    ErrorsAgree(q, s, px, res, above, w);
    StraightParts(q, w, spill, px, res, m, w);
    SharesAre(Error(q, px, res, m));
    if m + 1 < w { SharesAre(Error(q, px, res, m + 1)); }
    if m > 0 { SharesAre(Error(q, px, res, m - 1)); }
  }

  lemma SharesAre(e: int)
    ensures Share(e, 3) == 3 * e / 16 && Share(e, 5) == 5 * e / 16 && Share(e, 1) == e / 16
  {
  }

  lemma ErrorsAgree(q: Quantizer, s: FS.Shades, px: seq<int>, res: seq<int>, above: seq<int>, w: nat)
    requires w == |px| == |above| && w <= |res|
    requires forall k :: 0 <= k < w ==> Agree(q, s, px, res, above, k)
    ensures forall k :: 0 <= k < w ==> Error(q, px, res, k) == FS.Loss(s, px, above, k)
  {
    hide Error, FS.Loss, Total, Level, FS.Value, FS.Kept;
    forall k | 0 <= k < w ensures Error(q, px, res, k) == FS.Loss(s, px, above, k) {
      assert Agree(q, s, px, res, above, k);
    }
  }

  /** A whole row, from a cleared line: every cell is what the reference hands to the pixel below. */
  lemma RowHands(q: Quantizer, s: FS.Shades, w: nat, spill: bool, px: seq<int>, res: seq<int>, above: seq<int>,
                 line0: seq<int>)
    requires w == |px| == |above| && w <= |res| && w <= |line0|
    requires forall m :: 0 <= m < w ==> line0[m] == 0
    requires forall k :: 0 <= k < w ==> Agree(q, s, px, res, above, k)
    ensures forall m :: 0 <= m < w ==>
      Line(q, Straight, w, spill, px, res, line0, w)[m] == FS.Signed16(FS.Handed(s, px, above, m))
  {
    hide *;
    forall m | 0 <= m < w
      ensures Line(q, Straight, w, spill, px, res, line0, w)[m] == FS.Signed16(FS.Handed(s, px, above, m))
    {
      CellHanded(q, s, w, spill, px, res, above, line0, m);
    }
  }

  // ---- Sixteen levels ----

  lemma {:induction false} ByteIsOctet(word: nat, k: nat)
    ensures Byte(word, k) == FS.Octet(word, k)
  {
    if k > 0 { ByteIsOctet(word / 256, k - 1); }
  }

  lemma {:induction false} NibbleIsDigit(word: nat, k: nat)
    ensures Nibble(word, k) == FS.HexDigit(word, k)
  {
    if k > 0 { NibbleIsDigit(word / 16, k - 1); }
  }

  lemma ImageRow(src: seq<nat>, w: nat, h: nat, r: nat)
    requires Fours(w) && r < h && Words(w, r + 1) <= |src|
    ensures RowPixels(src, w, r) == FS.Image(src, w, h)[r]
  {
    RowFits(|src|, w, r);
    forall k | 0 <= k < w ensures RowPixels(src, w, r)[k] == FS.PackedPixel(src, w, r, k) {
      ByteIsOctet(src[Words(w, r) + k / 4], k % 4);
      hide Byte, FS.Octet;
    }
  }

  lemma RowsBefore(w: nat, h: nat, r: nat, n: nat)
    requires r < h && Words(w, h) <= n
    ensures Words(w, r) <= n && Words(w, r + 1) <= n
  {
    WordsGrow(w, r, h);
    WordsGrow(w, r + 1, h);
  }

  /** Every pixel of row r is the reference's. */
  lemma RowAgrees(src: seq<nat>, w: nat, h: nat, r: nat)
    requires Fours(w) && r < h && Words(w, h) <= |src| && Words(w, r + 1) <= |src| && Words(w, r) <= |src|
    requires Residual(src, w, r) == FS.Above(FS.Sixteen, FS.Image(src, w, h), w, r)
    ensures var px, res := RowPixels(src, w, r), Residual(src, w, r);
            forall k :: 0 <= k < w ==> Agree(Gray16, FS.Sixteen, px, res, res, k)
  {
    PixelRange(src, w, r);
    ResidualRange(src, w, r);
    hide RowPixels, Residual, Agree;
    var px, res := RowPixels(src, w, r), Residual(src, w, r);
    forall k | 0 <= k < w ensures Agree(Gray16, FS.Sixteen, px, res, res, k) {
      GreyAgrees(px, res, res, k);
    }
  }

  lemma ZerosAreZero(w: nat)
    ensures |Zeros(w)| == w && forall m :: 0 <= m < w ==> Zeros(w)[m] == 0
  {
  }

  lemma FirstAbove(s: FS.Shades, rows: seq<seq<int>>, w: nat)
    requires forall i :: 0 <= i < |rows| ==> |rows[i]| == w
    ensures FS.Above(s, rows, w, 0) == Zeros(w)
  {
  }

  lemma NextAbove(s: FS.Shades, rows: seq<seq<int>>, w: nat, r: nat)
    requires r < |rows| && forall i :: 0 <= i < |rows| ==> |rows[i]| == w
    ensures forall m :: 0 <= m < w ==>
      FS.Above(s, rows, w, r + 1)[m] == FS.Signed16(FS.Handed(s, rows[r], FS.Above(s, rows, w, r), m))
  {
  }

  /** The residual line that row r starts from is what the reference has above the row. */
  lemma {:induction false} ResidualIsAbove(src: seq<nat>, w: nat, h: nat, r: nat)
    requires Fours(w) && r <= h && Words(w, h) <= |src| && Words(w, r) <= |src|
    ensures Residual(src, w, r) == FS.Above(FS.Sixteen, FS.Image(src, w, h), w, r)
  {
    hide *;
    var rows := FS.Image(src, w, h);
    if r == 0 {
      FirstAbove(FS.Sixteen, rows, w);
      ResidualStart(src, w);
    } else {
      RowsBefore(w, h, r - 1, |src|);
      ResidualIsAbove(src, w, h, r - 1);
      ResidualStep(src, w, r - 1);
      RowAgrees(src, w, h, r - 1);
      ImageRow(src, w, h, r - 1);
      NextAbove(FS.Sixteen, rows, w, r - 1);
      ZerosAreZero(w);
      var px, res := RowPixels(src, w, r - 1), Residual(src, w, r - 1);
      RowHands(Gray16, FS.Sixteen, w, false, px, res, res, Zeros(w));
    }
  }

  lemma LevelIsShade(src: seq<nat>, w: nat, h: nat, r: nat, k: nat)
    requires Fours(w) && r < h && k < w && Words(w, h) <= |src| && Words(w, r + 1) <= |src| && Words(w, r) <= |src|
    ensures Level(Gray16, RowPixels(src, w, r), Residual(src, w, r), k)
         == FS.Shade(FS.Sixteen, FS.Image(src, w, h), w, r, k)
  {
    ResidualIsAbove(src, w, h, r);
    RowAgrees(src, w, h, r);
    ImageRow(src, w, h, r);
    hide RowPixels, Residual, FS.Above, FS.Image, Level, FS.Value, Words;
    assert Agree(Gray16, FS.Sixteen, RowPixels(src, w, r), Residual(src, w, r), Residual(src, w, r), k);
  }

  lemma NibbleHeld(src: seq<nat>, dst: seq<nat>, w: nat, h: nat, r: nat, k: nat)
    requires Eights(w) && Dithered(src, dst, w, h) && r < h && k < w
    ensures Fours(w) && Words(w, r + 1) <= |src| && Words(w, r) <= |src| && FS.WordAt(r, w / 8, k / 8) < |dst|
    ensures Nibble(dst[FS.WordAt(r, w / 8, k / 8)], k % 8)
         == Level(Gray16, RowPixels(src, w, r), Residual(src, w, r), k)
  {
    hide Level, RowPixels, Residual, Nibble;
    assert RowHolds(src, dst, w, r, k / 8);
    assert k == 8 * (k / 8) + k % 8;
  }

  /** What the dithering of an image writes: nibble k of row r is the level that the reference gives pixel k of row r,
      for every image. */
  lemma DitherIsFloydSteinberg(src: seq<nat>, dst: seq<nat>, w: nat, h: nat, r: nat, k: nat)
    requires w % 8 == 0 && FS.WordAt(h, w / 4, 0) <= |src| && Dithered(src, dst, w, h) && r < h && k < w
    ensures FS.WordAt(r, w / 8, k / 8) < |dst|
    ensures FS.HexDigit(dst[FS.WordAt(r, w / 8, k / 8)], k % 8) == FS.Shade(FS.Sixteen, FS.Image(src, w, h), w, r, k)
  {
    assert Eights(w) && Words(w, h) <= |src|;
    hide *;
    EightsAreFours(w);
    RowsBefore(w, h, r, |src|);
    NibbleHeld(src, dst, w, h, r, k);
    NibbleIsDigit(dst[FS.WordAt(r, w / 8, k / 8)], k % 8);
    LevelIsShade(src, w, h, r, k);
  }

  // ---- Two levels ----

  ghost predicate Widths(rows: seq<seq<int>>, w: nat) {
    forall i :: 0 <= i < |rows| ==> |rows[i]| == w
  }

  lemma AllTwoAgree(px: seq<int>, res: seq<int>, above: seq<int>, w: nat)
    requires w == |px| == |above| && w <= |res| && forall m :: 0 <= m < w ==> res[m] == above[m]
    ensures forall k :: 0 <= k < w ==> Agree(TwoLevel(0x80), FS.Two, px, res, above, k)
  {
    hide Agree;
    forall k | 0 <= k < w ensures Agree(TwoLevel(0x80), FS.Two, px, res, above, k) {
      TwoAgrees(px, res, above, k);
    }
  }

  lemma NextLines(rows: seq<seq<int>>, w: nat, size: nat, n: nat)
    requires n < |rows| && w <= size && Widths(rows, w)
    ensures var before, after := DitherRow2.LinesAfter(rows, w, size, n), DitherRow2.LinesAfter(rows, w, size, n + 1);
            && after.current
               == Line(TwoLevel(0x80), Straight, w, true, rows[n], before.current, before.next, w)
            && forall m :: 0 <= m < w ==> after.next[m] == 0
  {
    hide Line;
  }

  /** What a row of a rectangle finds in its residual line is what the reference has above it, wrapped stores
      included. */
  lemma {:induction false} LinesAreAbove(rows: seq<seq<int>>, w: nat, size: nat, n: nat)
    requires n <= |rows| && w <= size && Widths(rows, w)
    ensures forall m :: 0 <= m < w ==>
      DitherRow2.LinesAfter(rows, w, size, n).current[m] == FS.Above(FS.Two, rows, w, n)[m]
    ensures forall m :: 0 <= m < w ==> DitherRow2.LinesAfter(rows, w, size, n).next[m] == 0
  {
    if n > 0 {
      assert forall i :: 0 <= i < |rows| ==> |rows[i]| == w;
      var before, above := DitherRow2.LinesAfter(rows, w, size, n - 1), FS.Above(FS.Two, rows, w, n - 1);
      hide *;
      LinesAreAbove(rows, w, size, n - 1);
      NextLines(rows, w, size, n - 1);
      NextAbove(FS.Two, rows, w, n - 1);
      AllTwoAgree(rows[n - 1], before.current, above, w);
      RowHands(TwoLevel(0x80), FS.Two, w, true, rows[n - 1], before.current, above, before.next);
    }
  }

  /** What the dithering of a rectangle writes is the reference's, for any number of rows. */
  lemma RectIsFloydSteinberg(dst: seq<nat>, offset: nat, stride: nat, rows: seq<seq<int>>, w: nat, size: nat, r: nat,
                             k: nat)
    requires w % 2 == 0 && w <= size && Widths(rows, w) && r < |rows| && k < w
    requires DitherRow2.RowHolds(dst, offset, stride, rows, w, size, r)
    ensures offset + FS.WordAt(r, stride, k / 2) < |dst|
    ensures FS.HexDigit(dst[offset + FS.WordAt(r, stride, k / 2)], k % 2) == FS.Shade(FS.Two, rows, w, r, k)
  {
    var res, above := DitherRow2.LinesAfter(rows, w, size, r).current, FS.Above(FS.Two, rows, w, r);
    LinesAreAbove(rows, w, size, r);
    AllTwoAgree(rows[r], res, above, w);
    assert Agree(TwoLevel(0x80), FS.Two, rows[r], res, above, k);
    NibbleIsDigit(dst[offset + FS.WordAt(r, stride, k / 2)], k % 2);
    hide DitherRow2.LinesAfter, FS.Above, Nibble, FS.HexDigit, Level, FS.Value, FS.Kept, Widths;
    assert k == 2 * (k / 2) + k % 2;
  }

  /** And the rows are those of the source. */
  lemma RowsOfSource(src: seq<nat>, offset: nat, stride: nat, w: nat, rows: seq<seq<int>>, r: nat, k: nat)
    requires DitherRow2.IsRows(src, offset, stride, w, rows) && r < |rows| && k < w
    ensures |rows[r]| == w && offset + FS.WordAt(r, stride, k / 2) < |src|
    ensures rows[r][k] == FS.Octet(src[offset + FS.WordAt(r, stride, k / 2)], k % 2)
  {
    assert DitherRow2.RowFits(|src|, offset, stride, w, r);
    ByteIsOctet(src[offset + FS.WordAt(r, stride, k / 2)], k % 2);
    hide Byte, FS.Octet;
  }

  // ---- The ARM row ----

  lemma FirstRowOfImage(src: seq<nat>, w: nat)
    requires w <= 4 * |src|
    ensures Pixels(src, 0, w) == FS.Image(src, w, 1)[0]
    ensures forall k :: 0 <= k < w ==> 0 <= Pixels(src, 0, w)[k] <= 255
  {
    forall k | 0 <= k < w ensures Pixels(src, 0, w)[k] == FS.PackedPixel(src, w, 0, k) {
      ByteIsOctet(src[k / 4], k % 4);
      hide Byte, FS.Octet;
    }
  }

  /** The nibbles that the ARM routine writes are the reference's, whatever halfwords the line above holds. */
  lemma ArmIsFloydSteinberg(src: seq<nat>, dst: seq<nat>, res: seq<int>, w: nat, k: nat)
    requires w % 4 == 0 && w <= 4 * |src| && w <= 4 * |dst| && w <= |res| && k < w && Halfwords(res)
    requires HoldsFour(dst[k / 4], Pixels(src, 0, w), res, 4 * (k / 4))
    ensures FS.HexDigit(dst[k / 4], k % 4)
         == FS.Kept(FS.Sixteen, FS.Value(FS.Sixteen, FS.Image(src, w, 1)[0], res, k)) / 16
  {
    FirstRowOfImage(src, w);
    GreyAgrees(Pixels(src, 0, w), res, res, k);
    NibbleIsDigit(dst[k / 4], k % 4);
    hide Pixels, FS.Image, Nibble, FS.HexDigit, Level, FS.Value, FS.Kept;
    assert k == 4 * (k / 4) + k % 4;
  }

  lemma {:induction false} HalfStepParts(px: seq<int>, res: seq<int>, w: nat, m: nat, k: nat)
    requires k <= w == |px| && w <= |res| && Halfwords(res) && forall i :: 0 <= i < w ==> 0 <= px[i] <= 255
    ensures Parts(Gray16, HalfStep, w, false, px, res, m, k) == FS.HalfStepped(px, res, w, m, k)
  {
    if k > 0 {
      HalfStepParts(px, res, w, m, k - 1);
      GreyAgrees(px, res, res, k - 1);
      hide Error, FS.Loss, FS.Value, Total, Level;
    }
  }

  lemma HalfwordKept(x: int)
    ensures Cell(HalfStep, x) == x % 65536 && (0 <= x < 65536 ==> x % 65536 == x)
  {
  }

  /** And the line that it leaves holds what its own pointer arithmetic distributes. */
  lemma ArmLineIs(px: seq<int>, res: seq<int>, fill: seq<int>, w: nat, m: nat)
    requires w == |px| && w <= |res| && Halfwords(res) && Halfwords(fill) && m < |fill|
    requires forall i :: 0 <= i < w ==> 0 <= px[i] <= 255
    ensures Line(Gray16, HalfStep, w, false, px, res, fill, w)[m]
         == (fill[m] + FS.HalfStepped(px, res, w, m, w)) % 65536
  {
    HalfwordKept(fill[m]);
    HalfwordKept(fill[m] + FS.HalfStepped(px, res, w, m, w));
    assert Cell(HalfStep, fill[m]) == fill[m];
    hide *;
    LineGathers(Gray16, HalfStep, w, false, px, res, fill, w, m);
    HalfStepParts(px, res, w, m, w);
  }
}
