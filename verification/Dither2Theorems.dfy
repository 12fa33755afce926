/** Two-level dithering drifts slowly: after h rows every residual lies within -(63 + 3h) and 69, so
    16-bit storage cannot wrap for thousands of rows. */
module Dither2Theorems {
  import opened ErrorDiffusion
  import opened DitherRow2

  const Q := TwoLevel(0x80)

  /** Residuals are at least -R; nine times an error is then at least -Depth(R). */
  function Depth(R: int): int {
    16 * R + 15
  }

  ghost predicate RowInput2(px: seq<int>, res: seq<int>, w: nat, R: int) {
    && R >= 63
    && |px| == w && w <= |res|
    && (forall k :: 0 <= k < w ==> 0 <= px[k] <= 255)
    && forall k :: 0 <= k < w ==> -R <= res[k] <= 69
  }

  lemma {:induction false} ErrorRange2(px: seq<int>, res: seq<int>, w: nat, R: int, k: nat)
    requires RowInput2(px, res, w, R) && k < w
    ensures -Depth(R) <= 9 * Error(Q, px, res, k)
    ensures Error(Q, px, res, k) <= 127
  {
    if k > 0 {
      ErrorRange2(px, res, w, R, k - 1);
    }
    hide Error;
    assert 9 * Carry(Q, px, res, k) >= -(7 * R + 15);
    ErrorIs(px, res, k);
  }

  lemma ErrorIs(px: seq<int>, res: seq<int>, k: nat)
    requires k < |px| && k < |res|
    ensures Error(Q, px, res, k) == Total(Q, px, res, k) - Quantize(Q, Total(Q, px, res, k))
  {
  }

  /** Only black and white are emitted. */
  lemma LevelsBlackOrWhite(px: seq<int>, res: seq<int>, k: nat)
    requires k < |px| && k < |res|
    ensures Level(Q, px, res, k) == 0 || Level(Q, px, res, k) == 15
    ensures Level(Q, px, res, k) == 15 <==> Total(Q, px, res, k) >= 0x80
  {
  }

  /** A store to a short keeps what fits. */
  lemma AddToShort(line: seq<int>, m: int, v: int)
    requires 0 <= m < |line| && -0x8000 <= line[m] + v < 0x8000
    ensures AddTo(Straight, line, m, v) == line[m := line[m] + v]
  {
  }

  /** The shares of one error, scaled by 144 so that both floors stay integral. */
  lemma ShareRange(e: int, d: int)
    requires -d <= 9 * e && e <= 127
    ensures -(3 * d + 135) <= 144 * Share(e, 3) && Share(e, 3) <= 23
    ensures -(5 * d + 135) <= 144 * Share(e, 5) && Share(e, 5) <= 39
    ensures -(d + 135) <= 144 * Share(e, 1) && Share(e, 1) <= 7
  {
  }

  /** The line being filled after k pixels: three shares in a finished cell, two in the one below the
      last pixel, one in the next. */
  ghost predicate Filling2(line: seq<int>, w: nat, k: nat, d: int)
    requires w <= |line|
  {
    forall m :: 0 <= m < w ==>
      && (m + 1 < k ==> -(9 * d + 405) <= 144 * line[m] && line[m] <= 69)
      && (m + 1 == k ==> -(6 * d + 270) <= 144 * line[m] && line[m] <= 46)
      && (m == k ==> -(d + 135) <= 144 * line[m] && line[m] <= 7)
      && (m > k ==> line[m] == 0)
  }

  /** Cells of the row are as if nothing wrapped; the cell beyond the row may hold anything. */
  lemma DepositRow(line: seq<int>, w: nat, k: nat, e: int, d: int)
    requires k < w < |line| && 0 <= d <= 524_255
    requires -d <= 9 * e && e <= 127
    requires Filling2(line, w, k, d)
    ensures Filling2(Deposit(Straight, w, true, line, k, e), w, k + 1, d)
  {
    ShareRange(e, d);
    hide Share, AddTo;
    var v1, v2, v3 := Share(e, 3), Share(e, 5), Share(e, 1);
    var r := Deposit(Straight, w, true, line, k, e);
    if k > 0 { AddToShort(line, k - 1, v1); }
    var a := if k > 0 then line[k - 1 := line[k - 1] + v1] else line;
    AddToShort(a, k, v2);
    var b := a[k := a[k] + v2];
    if k + 1 < w {
      AddToShort(b, k + 1, v3);
      assert r == b[k + 1 := b[k + 1] + v3];
    } else {
      AddToOther(b, k + 1, v3);
    }
    FilledOneMore(line, r, w, k, v1, v2, v3, d);
  }

  lemma FilledOneMore(line: seq<int>, r: seq<int>, w: nat, k: nat, v1: int, v2: int, v3: int, d: int)
    requires k < w < |line| == |r| && d >= 0
    requires -(3 * d + 135) <= 144 * v1 && v1 <= 23
    requires -(5 * d + 135) <= 144 * v2 && v2 <= 39
    requires -(d + 135) <= 144 * v3 && v3 <= 7
    requires Filling2(line, w, k, d)
    requires forall m :: 0 <= m < w ==>
      r[m] == line[m] + if m + 1 == k then v1 else if m == k then v2 else if m == k + 1 then v3 else 0
    ensures Filling2(r, w, k + 1, d)
  {
  }

  lemma AddToOther(line: seq<int>, m: int, v: int)
    ensures forall i :: 0 <= i < |line| && i != m ==> AddTo(Straight, line, m, v)[i] == line[i]
    ensures |AddTo(Straight, line, m, v)| == |line|
  {
  }

  lemma {:induction false} LineRange2(px: seq<int>, res: seq<int>, line0: seq<int>, w: nat, R: int, k: nat)
    requires RowInput2(px, res, w, R) && R <= 32_765 && k <= w < |line0|
    requires forall m :: 0 <= m < w ==> line0[m] == 0
    ensures Filling2(Line(Q, Straight, w, true, px, res, line0, k), w, k, Depth(R))
  {
    if k > 0 {
      LineRange2(px, res, line0, w, R, k - 1);
      ErrorRange2(px, res, w, R, k - 1);
      DepositRow(Line(Q, Straight, w, true, px, res, line0, k - 1), w, k - 1, Error(Q, px, res, k - 1), Depth(R));
    }
  }

  /** How far below zero residuals can be after h rows. */
  function Drift(h: nat): int {
    63 + 3 * h
  }

  ghost predicate ByteRows(rows: seq<seq<int>>, w: nat) {
    forall r :: 0 <= r < |rows| ==> |rows[r]| == w && forall k :: 0 <= k < w ==> 0 <= rows[r][k] <= 255
  }

  /** After h rows the residuals that the next row reads are within -(63 + 3h) and 69, and it finds its
      own line cleared, for as many rows as keep the bound within 16 bits: 10901. */
  lemma {:induction false} DriftBound(rows: seq<seq<int>>, w: nat, size: nat, h: nat)
    requires ByteRows(rows, w) && h <= |rows| && (w == 0 || w < size) && Drift(h) <= 0x8000
    ensures forall m :: 0 <= m < w ==> -Drift(h) <= LinesAfter(rows, w, size, h).current[m] <= 69
    ensures forall m :: 0 <= m < w ==> LinesAfter(rows, w, size, h).next[m] == 0
  {
    if h > 0 && w > 0 {
      DriftBound(rows, w, size, h - 1);
      var before := LinesAfter(rows, w, size, h - 1);
      LineRange2(rows[h - 1], before.current, before.next, w, Drift(h - 1), w);
      var line := Line(Q, Straight, w, true, rows[h - 1], before.current, before.next, w);
      assert LinesAfter(rows, w, size, h).current == line;
      FilledRange(line, w, Drift(h - 1));
    }
  }

  lemma FilledRange(line: seq<int>, w: nat, R: int)
    requires w <= |line| && R >= 63 && Filling2(line, w, w, Depth(R))
    ensures forall m :: 0 <= m < w ==> -(R + 3) <= line[m] <= 69
  {
  }

  // ---- The cell beyond the row is never read ----

  /** Lines of any lengths that hold the same in their first w cells. */
  ghost predicate Alike(a: seq<int>, b: seq<int>, w: nat) {
    w <= |a| && w <= |b| && forall m :: 0 <= m < w ==> a[m] == b[m]
  }

  lemma {:induction false} CarryAlike(q: Quantizer, px: seq<int>, a: seq<int>, b: seq<int>, k: nat)
    requires k <= |px| && Alike(a, b, k)
    ensures Carry(q, px, a, k) == Carry(q, px, b, k)
  {
    if k > 0 {
      CarryAlike(q, px, a, b, k - 1);
      hide Share;
      assert Total(q, px, a, k - 1) == Total(q, px, b, k - 1);
    }
  }

  lemma ErrorAlike(q: Quantizer, px: seq<int>, a: seq<int>, b: seq<int>, w: nat, k: nat)
    requires k < w <= |px| && Alike(a, b, w)
    ensures Error(q, px, a, k) == Error(q, px, b, k) && Level(q, px, a, k) == Level(q, px, b, k)
  {
    CarryAlike(q, px, a, b, k);
    hide Carry;
  }

  lemma AddToAlike(a: seq<int>, b: seq<int>, w: nat, m: int, v: int)
    requires Alike(a, b, w)
    ensures Alike(AddTo(Straight, a, m, v), AddTo(Straight, b, m, v), w)
  {
  }

  lemma DepositAlike(a: seq<int>, b: seq<int>, w: nat, k: nat, e: int)
    requires Alike(a, b, w)
    ensures Alike(Deposit(Straight, w, true, a, k, e), Deposit(Straight, w, true, b, k, e), w)
  {
    hide Alike, AddTo, Share;
    var v1, v2, v3 := Share(e, 3), Share(e, 5), Share(e, 1);
    AddToAlike(a, b, w, k - 1, v1);
    var a1 := if k > 0 then AddTo(Straight, a, k - 1, v1) else a;
    var b1 := if k > 0 then AddTo(Straight, b, k - 1, v1) else b;
    AddToAlike(a1, b1, w, k, v2);
    AddToAlike(AddTo(Straight, a1, k, v2), AddTo(Straight, b1, k, v2), w, k + 1, v3);
  }

  lemma {:induction false} LineAlike(q: Quantizer, w: nat, px: seq<int>, res: seq<int>, res': seq<int>, a: seq<int>,
                                     b: seq<int>, k: nat)
    requires k <= w == |px| && Alike(res, res', w) && Alike(a, b, w)
    ensures Alike(Line(q, Straight, w, true, px, res, a, k), Line(q, Straight, w, true, px, res', b, k), w)
  {
    if k > 0 {
      LineAlike(q, w, px, res, res', a, b, k - 1);
      ErrorAlike(q, px, res, res', w, k - 1);
      DepositAlike(Line(q, Straight, w, true, px, res, a, k - 1), Line(q, Straight, w, true, px, res', b, k - 1), w,
                   k - 1, Error(q, px, res, k - 1));
      hide Error, Deposit;
    }
  }

  /** Whatever the size of the lines, rows see the same residuals: nothing depends on what is stored beyond the row. */
  lemma {:induction false} SizeDoesNotMatter(rows: seq<seq<int>>, w: nat, s: nat, t: nat, n: nat)
    requires n <= |rows| && w <= s && w <= t && forall r :: 0 <= r < |rows| ==> |rows[r]| == w
    ensures Alike(LinesAfter(rows, w, s, n).current, LinesAfter(rows, w, t, n).current, w)
    ensures Alike(LinesAfter(rows, w, s, n).next, LinesAfter(rows, w, t, n).next, w)
  {
    if n > 0 {
      SizeDoesNotMatter(rows, w, s, t, n - 1);
      var a, b := LinesAfter(rows, w, s, n - 1), LinesAfter(rows, w, t, n - 1);
      LineAlike(Q, w, rows[n - 1], a.current, b.current, a.next, b.next, w);
      ClearedAlike(a.current, b.current, w);
      hide Line, Alike, ClearedTo;
    }
  }

  lemma ClearedAlike(a: seq<int>, b: seq<int>, w: nat)
    requires Alike(a, b, w)
    ensures Alike(ClearedTo(a, w), ClearedTo(b, w), w)
  {
  }

  /** Nor do the levels. */
  lemma LevelsIgnoreSize(rows: seq<seq<int>>, w: nat, s: nat, t: nat, n: nat, k: nat)
    requires n < |rows| && k < w <= s && w <= t && forall r :: 0 <= r < |rows| ==> |rows[r]| == w
    ensures Level(Q, rows[n], LinesAfter(rows, w, s, n).current, k)
         == Level(Q, rows[n], LinesAfter(rows, w, t, n).current, k)
  {
    SizeDoesNotMatter(rows, w, s, t, n);
    ErrorAlike(Q, rows[n], LinesAfter(rows, w, s, n).current, LinesAfter(rows, w, t, n).current, w, k);
    hide LinesAfter, Level;
  }
}
