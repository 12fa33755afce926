/** What 16-level dithering keeps over a row and over a whole image: residuals stay within 0..6,
    and brightness is lost only to rounding, clipping and the two image margins. */
module DitherTheorems {
  import opened ErrorDiffusion
  import opened DitherRow16

  /** Byte pixels and a residual line as the row above leaves it. */
  ghost predicate RowInput(px: seq<int>, res: seq<int>, w: nat) {
    && |px| == w && |res| == w
    && (forall k :: 0 <= k < w ==> 0 <= px[k] <= 255)
    && forall k :: 0 <= k < w ==> 0 <= res[k] <= 6
  }

  lemma {:induction false} ErrorRange(px: seq<int>, res: seq<int>, w: nat, k: nat)
    requires RowInput(px, res, w) && k < w
    ensures 0 <= Error(Gray16, px, res, k) < 16
    ensures 0 <= Carry(Gray16, px, res, k) <= 6
    ensures 0 <= Total(Gray16, px, res, k) <= 255
    ensures Error(Gray16, px, res, k) == Total(Gray16, px, res, k) - 16 * Level(Gray16, px, res, k)
  {
    if k > 0 {
      ErrorRange(px, res, w, k - 1);
    }
    CarryRange(px, res, w, k);
    hide Carry, HighNibble;
    NibbleLoss(Total(Gray16, px, res, k));
  }

  lemma NibbleLoss(g: int)
    requires 0 <= g <= 255
    ensures 0 <= g - HighNibble(g) < 16 && HighNibble(g) == 16 * (HighNibble(g) / 16)
  {
  }

  lemma CarryRange(px: seq<int>, res: seq<int>, w: nat, k: nat)
    requires RowInput(px, res, w) && k <= w
    requires k > 0 ==> 0 <= Error(Gray16, px, res, k - 1) < 16
    ensures 0 <= Carry(Gray16, px, res, k) <= 6
  {
    hide Error;
  }

  function Next(px: seq<int>, res: seq<int>, w: nat, k: nat): (line: seq<int>)
    requires k <= |px| && k <= |res|
    ensures |line| == w
  {
    Line(Gray16, Straight, w, false, px, res, Zeros(w), k)
  }

  lemma SmallShares(e: int)
    requires 0 <= e < 16
    ensures 0 <= Share(e, 7) <= 6 && 0 <= Share(e, 3) <= 2 && 0 <= Share(e, 5) <= 4 && Share(e, 1) == 0
    ensures e - 3 <= Share(e, 7) + Share(e, 3) + Share(e, 5) + Share(e, 1) <= e
  {
  }

  /** A store of a small sum keeps it. */
  lemma AddToSmall(l: Layout, line: seq<int>, m: int, v: int)
    requires 0 <= m < |line| && 0 <= line[m] + v < 0x8000
    ensures AddTo(l, line, m, v) == line[m := line[m] + v]
  {
  }

  /** The line being filled: finished cells hold at most 6, the cell below the last pixel at most 4, the
      rest nothing. */
  ghost predicate Filling(line: seq<int>, k: nat) {
    forall m :: 0 <= m < |line| ==>
      && (m + 1 < k ==> 0 <= line[m] <= 6)
      && (m + 1 == k ==> 0 <= line[m] <= 4)
      && (m >= k ==> line[m] == 0)
  }

  lemma {:induction false} LineRange(px: seq<int>, res: seq<int>, w: nat, k: nat)
    requires RowInput(px, res, w) && k <= w
    ensures Filling(Next(px, res, w, k), k)
  {
    if k > 0 {
      LineRange(px, res, w, k - 1);
      ErrorRange(px, res, w, k - 1);
      DepositSmall(Next(px, res, w, k - 1), w, k - 1, Error(Gray16, px, res, k - 1));
    }
  }

  lemma DepositSmall(line: seq<int>, w: nat, k: nat, e: int)
    requires |line| == w && k < w && 0 <= e < 16 && Filling(line, k)
    ensures Deposit(Straight, w, false, line, k, e)
         == (if k > 0 then line[k - 1 := line[k - 1] + Share(e, 3)] else line)[k := Share(e, 5)]
    ensures Filling(Deposit(Straight, w, false, line, k, e), k + 1)
  {
    SmallShares(e);
    hide Share, AddTo;
    if k > 0 { AddToSmall(Straight, line, k - 1, Share(e, 3)); }
    var a := if k > 0 then line[k - 1 := line[k - 1] + Share(e, 3)] else line;
    AddToSmall(Straight, a, k, Share(e, 5));
    var b := a[k := Share(e, 5)];
    if k + 1 < w { AddToSmall(Straight, b, k + 1, Share(e, 1)); }
  }

  /** Every row starts with a residual line within 0..6. */
  lemma {:induction false} ResidualRange(src: seq<nat>, w: nat, h: nat)
    requires Fours(w) && Words(w, h) <= |src|
    ensures forall m :: 0 <= m < w ==> 0 <= Residual(src, w, h)[m] <= 6
  {
    if h > 0 {
      EarlierRow(|src|, w, h);
      ResidualRange(src, w, h - 1);
      ResidualStep(src, w, h - 1);
      PixelRange(src, w, h - 1);
      LineRange(RowPixels(src, w, h - 1), Residual(src, w, h - 1), w, w);
    }
  }

  lemma EarlierRow(n: nat, w: nat, h: nat)
    requires h > 0 && Words(w, h) <= n
    ensures Words(w, h - 1) <= n
  {
    WordsStep(w, h - 1);
  }

  lemma PixelRange(src: seq<nat>, w: nat, h: nat)
    requires Fours(w) && Words(w, h + 1) <= |src|
    ensures forall k :: 0 <= k < w ==> 0 <= RowPixels(src, w, h)[k] <= 255
  {
    RowFits(|src|, w, h);
  }

  // ---- Conservation ----

  function Sum(s: seq<int>): int {
    if s == [] then 0 else Sum(s[..|s| - 1]) + s[|s| - 1]
  }

  lemma {:induction false} SumUpdate(s: seq<int>, m: nat, v: int)
    requires m < |s|
    ensures Sum(s[m := v]) == Sum(s) - s[m] + v
  {
    var n := |s| - 1;
    if m == n {
      assert s[m := v][..n] == s[..n];
    } else {
      assert s[m := v][..n] == s[..n][m := v];
      SumUpdate(s[..n], m, v);
    }
  }

  lemma {:induction false} SumZeros(w: nat)
    ensures Sum(Zeros(w)) == 0
  {
    if w > 0 {
      assert Zeros(w)[..w - 1] == Zeros(w - 1);
      SumZeros(w - 1);
    }
  }

  lemma {:induction false} SumBounded(s: seq<int>, bound: nat)
    requires forall m :: 0 <= m < |s| ==> 0 <= s[m] <= bound
    ensures 0 <= Sum(s) <= bound * |s|
  {
    if s != [] {
      SumBounded(s[..|s| - 1], bound);
      assert bound * |s| == bound * (|s| - 1) + bound;
    }
  }

  /** The sum of the levels of the first k pixels of a row. */
  function SumLevels(px: seq<int>, res: seq<int>, k: nat): int
    requires k <= |px| && k <= |res|
  {
    if k == 0 then 0 else SumLevels(px, res, k - 1) + Level(Gray16, px, res, k - 1)
  }

  /** What has gone missing after k pixels: rounding, clipping, and the lower left share of pixel 0. */
  function Lost(px: seq<int>, res: seq<int>, w: nat, k: nat): int
    requires k <= |px| && k <= |res|
  {
    Sum(px[..k]) + Sum(res[..k]) - 16 * SumLevels(px, res, k) - Sum(Next(px, res, w, k)) - Carry(Gray16, px, res, k)
  }

  ghost predicate NoneBright(px: seq<int>) {
    forall k :: 0 <= k < |px| ==> px[k] <= 243
  }

  /** How far pixel k, with what has been left for it, is above 255. */
  function Excess(px: seq<int>, res: seq<int>, k: nat): nat
    requires k < |px| && k < |res|
  {
    var t := px[k] + res[k] + if k == 0 then 0 else Error(Gray16, px, res, k - 1) * 7 / 16;
    if t > 255 then t - 255 else 0
  }

  function SumExcess(px: seq<int>, res: seq<int>, k: nat): nat
    requires k <= |px| && k <= |res|
  {
    if k == 0 then 0 else SumExcess(px, res, k - 1) + Excess(px, res, k - 1)
  }

  lemma {:induction false} NoExcess(px: seq<int>, res: seq<int>, w: nat, k: nat)
    requires RowInput(px, res, w) && k <= w && NoneBright(px)
    ensures SumExcess(px, res, k) == 0
  {
    if k > 0 {
      NoExcess(px, res, w, k - 1);
      ErrorRange(px, res, w, k - 1);
      if k > 1 { ErrorRange(px, res, w, k - 2); }
      hide Error, Total, Level, Carry;
    }
  }

  /** What goes missing is the excess over 255, and at most 3 a pixel and 2 more. */
  lemma {:induction false} RowBalance(px: seq<int>, res: seq<int>, w: nat, k: nat)
    requires RowInput(px, res, w) && k <= w
    ensures 0 <= Lost(px, res, w, k) - SumExcess(px, res, k) <= 3 * k + if k > 0 then 2 else 0
  {
    if k == 0 {
      SumZeros(w);
    } else {
      RowBalance(px, res, w, k - 1);
      PixelBalance(px, res, w, k - 1);
    }
  }

  /** One pixel loses its excess and at most 3; pixel 0 drops up to 2 more. */
  lemma PixelBalance(px: seq<int>, res: seq<int>, w: nat, k: nat)
    requires RowInput(px, res, w) && k < w
    ensures 0 <= Lost(px, res, w, k + 1) - Lost(px, res, w, k) - Excess(px, res, k) <= 3 + if k == 0 then 2 else 0
  {
    ErrorRange(px, res, w, k);
    LineRange(px, res, w, k);
    var e := Error(Gray16, px, res, k);
    SmallShares(e);
    DepositSmall(Next(px, res, w, k), w, k, e);
    DepositSum(Next(px, res, w, k), k, Share(e, 3), Share(e, 5));
    assert px[..k + 1][..k] == px[..k] && res[..k + 1][..k] == res[..k];
    assert Carry(Gray16, px, res, k + 1) == Share(e, 7);
    assert Next(px, res, w, k + 1) == Deposit(Straight, w, false, Next(px, res, w, k), k, e);
    assert Total(Gray16, px, res, k) == Clip(px[k] + res[k] + Carry(Gray16, px, res, k));
    assert Total(Gray16, px, res, k) == px[k] + res[k] + Carry(Gray16, px, res, k) - Excess(px, res, k);
    hide Excess, Next, Carry, Share, Error, Total, Level, Deposit;
  }

  lemma DepositSum(line: seq<int>, k: nat, v1: int, v2: int)
    requires k < |line| && line[k] == 0
    ensures Sum((if k > 0 then line[k - 1 := line[k - 1] + v1] else line)[k := v2])
         == Sum(line) + v2 + if k > 0 then v1 else 0
  {
    var a := if k > 0 then line[k - 1 := line[k - 1] + v1] else line;
    if k > 0 { SumUpdate(line, k - 1, line[k - 1] + v1); }
    SumUpdate(a, k, v2);
  }

  function TotalPixels(src: seq<nat>, w: nat, h: nat): int
    requires Fours(w) && Words(w, h) <= |src|
  {
    if h == 0 then 0
    else
      EarlierRow(|src|, w, h);
      TotalPixels(src, w, h - 1) + Sum(RowPixels(src, w, h - 1))
  }

  /** The sum of all levels of the first h rows. */
  function TotalLevels(src: seq<nat>, w: nat, h: nat): int
    requires Fours(w) && Words(w, h) <= |src|
  {
    if h == 0 then 0
    else
      EarlierRow(|src|, w, h);
      TotalLevels(src, w, h - 1) + SumLevels(RowPixels(src, w, h - 1), Residual(src, w, h - 1), w)
  }

  /** By how much the pixels of the first h rows, with what has been left for them, are above 255. */
  function TotalExcess(src: seq<nat>, w: nat, h: nat): nat
    requires Fours(w) && Words(w, h) <= |src|
  {
    if h == 0 then 0
    else
      EarlierRow(|src|, w, h);
      TotalExcess(src, w, h - 1) + SumExcess(RowPixels(src, w, h - 1), Residual(src, w, h - 1), w)
  }

  ghost predicate NoRowBright(src: seq<nat>, w: nat, h: nat)
    requires Fours(w)
  {
    forall r: nat :: r < h && Words(w, r + 1) <= |src| ==> NoneBright(RowPixels(src, w, r))
  }

  lemma {:induction false} NoTotalExcess(src: seq<nat>, w: nat, h: nat)
    requires Fours(w) && Words(w, h) <= |src| && NoRowBright(src, w, h)
    ensures TotalExcess(src, w, h) == 0
  {
    if h > 0 {
      EarlierRow(|src|, w, h);
      EarlierRowsBright(src, w, h);
      NoTotalExcess(src, w, h - 1);
      PixelRange(src, w, h - 1);
      ResidualRange(src, w, h - 1);
      NoExcess(RowPixels(src, w, h - 1), Residual(src, w, h - 1), w, w);
      hide RowPixels, Residual, SumExcess, Words, NoneBright, NoRowBright;
    }
  }

  /** What has gone missing from the first h rows, apart from the excess. */
  function Missing(src: seq<nat>, w: nat, h: nat): int
    requires Fours(w) && Words(w, h) <= |src|
  {
    TotalPixels(src, w, h) - 16 * TotalLevels(src, w, h) - TotalExcess(src, w, h) - Sum(Residual(src, w, h))
  }

  lemma MissingStep(src: seq<nat>, w: nat, h: nat)
    requires Fours(w) && Words(w, h + 1) <= |src| && Words(w, h) <= |src|
    ensures 0 <= Missing(src, w, h + 1) - Missing(src, w, h) <= 3 * w + 8
  {
    hide Words, Residual, RowPixels, SumLevels, SumExcess;
    ImageRow(src, w, h);
    assert TotalExcess(src, w, h + 1)
        == TotalExcess(src, w, h) + SumExcess(RowPixels(src, w, h), Residual(src, w, h), w);
    assert TotalPixels(src, w, h + 1) == TotalPixels(src, w, h) + Sum(RowPixels(src, w, h));
    assert TotalLevels(src, w, h + 1)
        == TotalLevels(src, w, h) + SumLevels(RowPixels(src, w, h), Residual(src, w, h), w);
  }

  /** The most that h rows can lose. */
  function MostLost(w: nat, h: nat): nat {
    (3 * w + 8) * h
  }

  lemma NextRow(w: nat, h: nat)
    requires h > 0
    ensures MostLost(w, h) == MostLost(w, h - 1) + 3 * w + 8
  {
  }

  lemma {:induction false} ImageBalance(src: seq<nat>, w: nat, h: nat)
    requires Fours(w) && Words(w, h) <= |src|
    ensures 0 <= Missing(src, w, h) <= MostLost(w, h)
  {
    hide *;
    if h == 0 {
      NothingMissing(src, w);
    } else {
      EarlierRow(|src|, w, h);
      ImageBalance(src, w, h - 1);
      MissingStep(src, w, h - 1);
      NextRow(w, h);
    }
  }

  lemma NothingMissing(src: seq<nat>, w: nat)
    requires Fours(w)
    ensures Words(w, 0) == 0 && Missing(src, w, 0) == 0 == MostLost(w, 0)
  {
    SumZeros(w);
  }

  lemma EarlierRowsBright(src: seq<nat>, w: nat, h: nat)
    requires Fours(w) && h > 0 && Words(w, h) <= |src| && NoRowBright(src, w, h)
    ensures NoRowBright(src, w, h - 1) && NoneBright(RowPixels(src, w, h - 1))
  {
    hide Words, RowPixels, NoneBright, Fours;
  }

  lemma ImageRow(src: seq<nat>, w: nat, h: nat)
    requires Fours(w) && Words(w, h + 1) <= |src| && Words(w, h) <= |src|
    ensures var loss := Sum(RowPixels(src, w, h)) + Sum(Residual(src, w, h))
                        - 16 * SumLevels(RowPixels(src, w, h), Residual(src, w, h), w)
                        - SumExcess(RowPixels(src, w, h), Residual(src, w, h), w) - Sum(Residual(src, w, h + 1));
            0 <= loss <= 3 * w + 8
  {
    PixelRange(src, w, h);
    ResidualRange(src, w, h);
    ResidualStep(src, w, h);
    hide RowPixels, Residual, SumLevels, SumExcess, Words, Sum;
    RowLoss(RowPixels(src, w, h), Residual(src, w, h), w);
  }

  lemma RowLoss(px: seq<int>, res: seq<int>, w: nat)
    requires RowInput(px, res, w)
    ensures 0 <= Sum(px) + Sum(res) - 16 * SumLevels(px, res, w) - SumExcess(px, res, w)
                 - Sum(Line(Gray16, Straight, w, false, px, res, Zeros(w), w)) <= 3 * w + 8
  {
    RowBalance(px, res, w, w);
    assert px[..w] == px && res[..w] == res;
    if w > 0 { ErrorRange(px, res, w, w - 1); }
    CarryRange(px, res, w, w);
    hide Sum, SumLevels, SumExcess, Line, Carry;
  }

  lemma Expand(w: nat, h: nat)
    ensures MostLost(w, h) == 3 * h * w + 8 * h
  {
  }

  /** Dithering darkens any image by the excess over 255 and a bounded amount, and never brightens it. */
  lemma ImageConservation(src: seq<nat>, w: nat, h: nat)
    requires Fours(w) && Words(w, h) <= |src|
    ensures 0 <= TotalPixels(src, w, h) - 16 * TotalLevels(src, w, h) - TotalExcess(src, w, h)
              <= 3 * h * w + 8 * h + 6 * w
    ensures NoRowBright(src, w, h) ==> TotalExcess(src, w, h) == 0
  {
    if NoRowBright(src, w, h) { NoTotalExcess(src, w, h); }
    ImageBalance(src, w, h);
    ResidualRange(src, w, h);
    SumBounded(Residual(src, w, h), 6);
    Expand(w, h);
    hide TotalPixels, TotalLevels, TotalExcess, Residual, RowPixels, Sum;
  }

  // ---- The output buffer ----

  function NibbleSum(word: nat): nat {
    Nibble(word, 0) + Nibble(word, 1) + Nibble(word, 2) + Nibble(word, 3)
    + Nibble(word, 4) + Nibble(word, 5) + Nibble(word, 6) + Nibble(word, 7)
  }

  /** The sum of the nibbles of n words. */
  function WordsSum(dst: seq<nat>, at: nat, n: nat): nat
    requires at + n <= |dst|
  {
    if n == 0 then 0 else WordsSum(dst, at, n - 1) + NibbleSum(dst[at + n - 1])
  }

  lemma WordOfLevels(word: nat, px: seq<int>, res: seq<int>, at: nat)
    requires HoldsLevels(word, px, res, at)
    ensures SumLevels(px, res, at + 8) == SumLevels(px, res, at) + NibbleSum(word)
  {
    hide Level, Nibble;
    assert forall k :: 0 <= k < 8 ==> Nibble(word, k) == Level(Gray16, px, res, at + k);
    LevelNext(px, res, at);
    LevelNext(px, res, at + 1);
    LevelNext(px, res, at + 2);
    LevelNext(px, res, at + 3);
    LevelNext(px, res, at + 4);
    LevelNext(px, res, at + 5);
    LevelNext(px, res, at + 6);
    LevelNext(px, res, at + 7);
    hide SumLevels, HoldsLevels;
  }

  lemma LevelNext(px: seq<int>, res: seq<int>, k: nat)
    requires k < |px| && k < |res|
    ensures SumLevels(px, res, k + 1) == SumLevels(px, res, k) + Level(Gray16, px, res, k)
  {
  }

  ghost predicate WordsHold(dst: seq<nat>, at: nat, px: seq<int>, res: seq<int>, n: nat) {
    at + n <= |dst| && forall j :: 0 <= j < n ==> HoldsLevels(dst[at + j], px, res, 8 * j)
  }

  lemma LastWord(dst: seq<nat>, at: nat, px: seq<int>, res: seq<int>, n: nat)
    requires WordsHold(dst, at, px, res, n + 1)
    ensures at + n < |dst| && WordsHold(dst, at, px, res, n) && HoldsLevels(dst[at + n], px, res, 8 * n)
    ensures WordsSum(dst, at, n + 1) == WordsSum(dst, at, n) + NibbleSum(dst[at + n])
  {
    hide HoldsLevels, NibbleSum;
  }

  lemma {:induction false} RowOfLevels(dst: seq<nat>, at: nat, px: seq<int>, res: seq<int>, n: nat)
    requires at + n <= |dst| && WordsHold(dst, at, px, res, n) && 8 * n <= |px| && 8 * n <= |res|
    ensures WordsSum(dst, at, n) == SumLevels(px, res, 8 * n)
  {
    hide *;
    if n == 0 {
      NoWords(dst, at, px, res);
    } else {
      var m := n - 1;
      LastWord(dst, at, px, res, m);
      RowOfLevels(dst, at, px, res, m);
      WordOfLevels(dst[at + m], px, res, 8 * m);
      assert 8 * m + 8 == 8 * n;
    }
  }

  lemma NoWords(dst: seq<nat>, at: nat, px: seq<int>, res: seq<int>)
    requires at <= |dst|
    ensures WordsSum(dst, at, 0) == 0 == SumLevels(px, res, 0)
  {
  }

  /** The sum of the nibbles of the first h rows of an image. */
  function ImageSum(dst: seq<nat>, w: nat, h: nat): nat
    requires OutWords(w, h) <= |dst|
  {
    if h == 0 then 0
    else
      OutWordsStep(w, h - 1);
      ImageSum(dst, w, h - 1) + WordsSum(dst, OutWords(w, h - 1), RowOut(w))
  }

  ghost predicate Dithered(src: seq<nat>, dst: seq<nat>, w: nat, h: nat) {
    forall r: nat, j: nat :: r < h && j < RowOut(w) ==> RowHolds(src, dst, w, r, j)
  }

  lemma RowOfImage(src: seq<nat>, dst: seq<nat>, w: nat, r: nat)
    requires Eights(w) && Dithered(src, dst, w, r + 1)
    requires Words(w, r + 1) <= |src| && Words(w, r) <= |src| && OutWords(w, r) + RowOut(w) <= |dst|
    ensures WordsSum(dst, OutWords(w, r), RowOut(w)) == SumLevels(RowPixels(src, w, r), Residual(src, w, r), w)
  {
    EightsAreFours(w);
    hide Words, OutWords, RowOut, RowIn, Eights, Fours, RowPixels, Residual, HoldsLevels, WordsSum, SumLevels;
    var px, res, at := RowPixels(src, w, r), Residual(src, w, r), OutWords(w, r);
    forall j | 0 <= j < RowOut(w) ensures HoldsLevels(dst[at + j], px, res, 8 * j) {
      assert RowHolds(src, dst, w, r, j);
    }
    RowOfLevels(dst, at, px, res, RowOut(w));
  }

  /** The nibbles that a dithered buffer holds are the levels. */
  lemma {:induction false} ImageOfLevels(src: seq<nat>, dst: seq<nat>, w: nat, h: nat)
    requires Eights(w) && Words(w, h) <= |src| && OutWords(w, h) <= |dst| && Dithered(src, dst, w, h)
    ensures ImageSum(dst, w, h) == TotalLevels(src, w, h)
  {
    if h == 0 {
    } else {
      EarlierRow(|src|, w, h);
      OutWordsStep(w, h - 1);
      assert Dithered(src, dst, w, h - 1);
      ImageOfLevels(src, dst, w, h - 1);
      RowOfImage(src, dst, w, h - 1);
      hide Words, OutWords, RowOut, Eights, Fours, Dithered, WordsSum, SumLevels, RowPixels, Residual;
    }
  }

  /** So what is written never amounts to more than the image without the excess, and to little less. */
  lemma BufferConservation(src: seq<nat>, dst: seq<nat>, w: nat, h: nat)
    requires Eights(w) && Words(w, h) <= |src| && OutWords(w, h) <= |dst| && Dithered(src, dst, w, h)
    ensures 0 <= TotalPixels(src, w, h) - 16 * ImageSum(dst, w, h) - TotalExcess(src, w, h)
              <= 3 * h * w + 8 * h + 6 * w
    ensures NoRowBright(src, w, h) ==>
      TotalPixels(src, w, h) - 16 * ImageSum(dst, w, h) <= 3 * h * w + 8 * h + 6 * w
  {
    EightsAreFours(w);
    hide *;
    ImageOfLevels(src, dst, w, h);
    ImageConservation(src, w, h);
  }
}
