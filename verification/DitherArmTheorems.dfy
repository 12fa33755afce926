/** When the ARM dither row leaves the same residual line as the C row: exactly when no pixel
    from the fifth on has an error above 3. */
module DitherArmTheorems {
  import opened ErrorDiffusion
  import opened DitherRow16
  import opened DitherTheorems

  /** The line the ARM row has filled after k pixels, from a cleared one. */
  function ArmNext(px: seq<int>, res: seq<int>, w: nat, k: nat): (line: seq<int>)
    requires k <= |px| && k <= |res|
    ensures |line| == w
  {
    Line(Gray16, HalfStep, w, false, px, res, Zeros(w), k)
  }

  /** How many of the first k pixels have cell m below them in the ARM row's layout: at most two. */
  function Visits(k: nat, m: nat): (n: nat)
    ensures n <= 2
  {
    (if m + 2 * (m / 2) < k then 1 else 0) + (if m >= 2 && m + 2 * (m / 2) - 2 < k then 1 else 0)
  }

  lemma VisitsStep(k: nat, m: nat)
    ensures Visits(k + 1, m) == Visits(k, m) + if m == Pos(HalfStep, k) then 1 else 0
  {
  }

  /** Cell values are bounded by their visits, hence by 12: no halfword store wraps. */
  ghost predicate ArmFilling(line: seq<int>, k: nat) {
    forall m :: 0 <= m < |line| ==> 0 <= line[m] <= 4 * Visits(k, m) + 2 * Visits(k, m + 1)
  }

  lemma ArmFillingSmall(line: seq<int>, k: nat, m: nat)
    requires ArmFilling(line, k) && m < |line|
    ensures 0 <= line[m] <= 12
  {
    hide Visits;
    assert 0 <= line[m] <= 4 * Visits(k, m) + 2 * Visits(k, m + 1);
  }

  lemma ArmPosInRow(w: nat, k: nat)
    requires k < w && w % 4 == 0
    ensures Pos(HalfStep, k) < w
    ensures k + 1 < w ==> Pos(HalfStep, k) + 1 < w
    ensures k > 0 ==> Pos(HalfStep, k) > 0
  {
  }

  /** One pixel's deposit in the ARM layout, without the wrap. */
  lemma ArmDepositSmall(line: seq<int>, w: nat, k: nat, e: int)
    requires |line| == w && w % 4 == 0 && k < w && 0 <= e < 16 && ArmFilling(line, k)
    ensures Pos(HalfStep, k) < w && (k > 0 ==> Pos(HalfStep, k) > 0)
    ensures Deposit(HalfStep, w, false, line, k, e) == Deposited(line, k, Pos(HalfStep, k), Share(e, 3), Share(e, 5))
    ensures ArmFilling(Deposit(HalfStep, w, false, line, k, e), k + 1)
  {
    var p := Pos(HalfStep, k);
    ArmPosInRow(w, k);
    SmallShares(e);
    assert line[p] <= 12 by { ArmFillingSmall(line, k, p); }
    if k > 0 {
      ArmFillingSmall(line, k, p - 1);
      AddToSmall(HalfStep, line, p - 1, Share(e, 3));
    }
    var a := if k > 0 then line[p - 1 := line[p - 1] + Share(e, 3)] else line;
    AddToSmall(HalfStep, a, p, Share(e, 5));
    var b := a[p := a[p] + Share(e, 5)];
    if k + 1 < w {
      ArmFillingSmall(line, k, p + 1);
      AddToSmall(HalfStep, b, p + 1, Share(e, 1));
    }
    DepositedFilling(line, k, p, Share(e, 3), Share(e, 5));
    hide Visits, Share, AddTo, Pos, ArmFilling;
  }

  lemma DepositedFilling(line: seq<int>, k: nat, p: nat, v1: int, v2: int)
    requires ArmFilling(line, k) && p < |line| && p == Pos(HalfStep, k) && (k > 0 ==> p > 0)
    requires 0 <= v1 <= 2 && 0 <= v2 <= 4
    ensures ArmFilling(Deposited(line, k, p, v1, v2), k + 1)
  {
    forall m: nat ensures Visits(k + 1, m) == Visits(k, m) + if m == p then 1 else 0 { VisitsStep(k, m); }
    hide Visits, Pos;
    var d := Deposited(line, k, p, v1, v2);
    forall m | 0 <= m < |d| ensures 0 <= d[m] <= 4 * Visits(k + 1, m) + 2 * Visits(k + 1, m + 1) {
      assert 0 <= line[m] <= 4 * Visits(k, m) + 2 * Visits(k, m + 1);
    }
  }

  function Deposited(line: seq<int>, k: nat, p: nat, v1: int, v2: int): seq<int>
    requires p < |line| && (k > 0 ==> p > 0)
  {
    var a := if k > 0 then line[p - 1 := line[p - 1] + v1] else line;
    a[p := a[p] + v2]
  }

  lemma {:induction false} ArmLineRange(px: seq<int>, res: seq<int>, w: nat, k: nat)
    requires RowInput(px, res, w) && k <= w && w % 4 == 0
    ensures ArmFilling(ArmNext(px, res, w, k), k)
  {
    if k > 0 {
      ArmLineRange(px, res, w, k - 1);
      ErrorRange(px, res, w, k - 1);
      ArmDepositSmall(ArmNext(px, res, w, k - 1), w, k - 1, Error(Gray16, px, res, k - 1));
    }
  }

  /** Both lines after one more pixel. */
  lemma BothStep(px: seq<int>, res: seq<int>, w: nat, k: nat)
    requires RowInput(px, res, w) && k < w && w % 4 == 0
    ensures Pos(HalfStep, k) < w && (k > 0 ==> Pos(HalfStep, k) > 0)
    ensures 0 <= Error(Gray16, px, res, k) < 16
    ensures var e := Error(Gray16, px, res, k);
            && Next(px, res, w, k + 1) == Deposited(Next(px, res, w, k), k, k, Share(e, 3), Share(e, 5))
            && ArmNext(px, res, w, k + 1)
               == Deposited(ArmNext(px, res, w, k), k, Pos(HalfStep, k), Share(e, 3), Share(e, 5))
  {
    ErrorRange(px, res, w, k);
    ArmPosInRow(w, k);
    NextStep(px, res, w, k);
    ArmNextStep(px, res, w, k);
    hide Error, Next, ArmNext, Pos, Deposited, Share;
  }

  lemma NextStep(px: seq<int>, res: seq<int>, w: nat, k: nat)
    requires RowInput(px, res, w) && k < w
    ensures var e := Error(Gray16, px, res, k);
            Next(px, res, w, k + 1) == Deposited(Next(px, res, w, k), k, k, Share(e, 3), Share(e, 5))
  {
    ErrorRange(px, res, w, k);
    LineRange(px, res, w, k);
    DepositSmall(Next(px, res, w, k), w, k, Error(Gray16, px, res, k));
    hide Error, Share, AddTo, Pos;
  }

  lemma ArmNextStep(px: seq<int>, res: seq<int>, w: nat, k: nat)
    requires RowInput(px, res, w) && k < w && w % 4 == 0
    requires Pos(HalfStep, k) < w && (k > 0 ==> Pos(HalfStep, k) > 0)
    ensures var e := Error(Gray16, px, res, k);
            ArmNext(px, res, w, k + 1)
            == Deposited(ArmNext(px, res, w, k), k, Pos(HalfStep, k), Share(e, 3), Share(e, 5))
  {
    ErrorRange(px, res, w, k);
    ArmLineRange(px, res, w, k);
    ArmDepositSmall(ArmNext(px, res, w, k), w, k, Error(Gray16, px, res, k));
    hide Error, Share, AddTo, Pos, ArmFilling;
  }

  // ---- First moments tell the lines apart ----

  function Moment(s: seq<int>): int {
    if s == [] then 0 else Moment(s[..|s| - 1]) + (|s| - 1) * s[|s| - 1]
  }

  lemma Distribute(n: int, a: int, b: int)
    ensures n * (a - b) == n * a - n * b
    ensures n * (a + b) == n * a + n * b
  {
  }

  lemma {:induction false} MomentUpdate(s: seq<int>, m: nat, v: int)
    requires m < |s|
    ensures Moment(s[m := v]) == Moment(s) + m * (v - s[m])
  {
    var n := |s| - 1;
    if m == n {
      assert s[m := v][..n] == s[..n];
      Distribute(m, v, s[m]);
    } else {
      assert s[m := v][..n] == s[..n][m := v];
      MomentUpdate(s[..n], m, v);
    }
  }

  lemma Difference(x: int, v: int)
    ensures x + v - x == v
  {
  }

  lemma DepositedMoment(line: seq<int>, k: nat, p: nat, v1: int, v2: int)
    requires p < |line| && (k > 0 ==> p > 0)
    ensures Moment(Deposited(line, k, p, v1, v2)) == Moment(line) + p * v2 + if k > 0 then (p - 1) * v1 else 0
  {
    hide Moment;
    if k > 0 {
      var a := line[p - 1 := line[p - 1] + v1];
      MomentUpdate(line, p - 1, line[p - 1] + v1);
      MomentUpdate(a, p, a[p] + v2);
      Difference(a[p], v2);
      Difference(line[p - 1], v1);
    } else {
      MomentUpdate(line, p, line[p] + v2);
      Difference(line[p], v2);
    }
  }

  /** How far the C line's moment is ahead. */
  function Lead(px: seq<int>, res: seq<int>, w: nat, k: nat): int
    requires k <= |px| && k <= |res|
  {
    Moment(Next(px, res, w, k)) - Moment(ArmNext(px, res, w, k))
  }

  /** How much a pixel moves the C line's moment ahead. */
  function Gain(k: int, p: int, v1: int, v2: int): int {
    (k - p) * (v2 + if k > 0 then v1 else 0)
  }

  lemma DepositedLead(a: seq<int>, b: seq<int>, k: nat, p: nat, v1: int, v2: int)
    requires k < |a| && p < |b| && (k > 0 ==> p > 0)
    ensures Moment(Deposited(a, k, k, v1, v2)) - Moment(Deposited(b, k, p, v1, v2))
         == Moment(a) - Moment(b) + Gain(k, p, v1, v2)
  {
    hide Moment, Deposited;
    DepositedMoment(a, k, k, v1, v2);
    DepositedMoment(b, k, p, v1, v2);
    LeadArithmetic(k, p, v1, v2);
  }

  lemma LeadArithmetic(k: int, p: int, v1: int, v2: int)
    ensures k * v2 - p * v2 == (k - p) * v2
    ensures (k - 1) * v1 - (p - 1) * v1 == (k - p) * v1
    ensures (k - p) * v2 + (k - p) * v1 == (k - p) * (v2 + v1)
  {
  }

  lemma LeadStep(px: seq<int>, res: seq<int>, w: nat, k: nat)
    requires RowInput(px, res, w) && k < w && w % 4 == 0
    ensures 0 <= Error(Gray16, px, res, k) < 16
    ensures Lead(px, res, w, k + 1) == Lead(px, res, w, k)
      + Gain(k, Pos(HalfStep, k), Share(Error(Gray16, px, res, k), 3), Share(Error(Gray16, px, res, k), 5))
  {
    BothStep(px, res, w, k);
    hide Share, Error, Moment, Next, ArmNext, Deposited, Pos, Gain;
    var e, p := Error(Gray16, px, res, k), Pos(HalfStep, k);
    DepositedLead(Next(px, res, w, k), ArmNext(px, res, w, k), k, p, Share(e, 3), Share(e, 5));
  }

  /** The condition: pixels 4 to k-1 lose at most 3 each. */
  ghost predicate Quiet(px: seq<int>, res: seq<int>, k: nat)
    requires k <= |px| && k <= |res|
  {
    forall j :: 4 <= j < k ==> Error(Gray16, px, res, j) <= 3
  }

  lemma LoudShares(e: int)
    requires 0 <= e < 16
    ensures e > 3 ==> Share(e, 5) >= 1
    ensures e <= 3 ==> Share(e, 5) == 0 && Share(e, 3) == 0
  {
  }

  lemma Product(a: int, b: int)
    requires a >= 0 && b >= 0
    ensures a * b >= 0
    ensures a > 0 && b > 0 ==> a * b > 0
    ensures b == 0 ==> a * b == 0
  {
  }

  lemma LeadGrows(px: seq<int>, res: seq<int>, w: nat, k: nat)
    requires RowInput(px, res, w) && k < w && w % 4 == 0
    ensures Lead(px, res, w, k + 1) >= Lead(px, res, w, k)
    ensures k >= 4 && Error(Gray16, px, res, k) > 3 ==> Lead(px, res, w, k + 1) > Lead(px, res, w, k)
  {
    LeadStep(px, res, w, k);
    hide Error, Lead, Gain;
    GainSign(k, Error(Gray16, px, res, k));
  }

  lemma GainSign(k: nat, e: int)
    requires 0 <= e < 16
    ensures Gain(k, Pos(HalfStep, k), Share(e, 3), Share(e, 5)) >= 0
    ensures k >= 4 && e > 3 ==> Gain(k, Pos(HalfStep, k), Share(e, 3), Share(e, 5)) > 0
  {
    LoudShares(e);
    SmallShares(e);
    PosBehind(k);
    hide Share, Pos;
    Product(k - Pos(HalfStep, k), Share(e, 5) + if k > 0 then Share(e, 3) else 0);
  }

  lemma PosBehind(k: nat)
    ensures Pos(HalfStep, k) <= k
    ensures k >= 4 <==> Pos(HalfStep, k) < k
  {
  }

  lemma NoLead(px: seq<int>, res: seq<int>, w: nat)
    ensures Lead(px, res, w, 0) == 0
  {
  }

  lemma {:induction false} LeadVanishesOnlyWhenQuiet(px: seq<int>, res: seq<int>, w: nat, k: nat)
    requires RowInput(px, res, w) && k <= w && w % 4 == 0
    ensures Lead(px, res, w, k) >= 0
    ensures Lead(px, res, w, k) == 0 ==> Quiet(px, res, k)
  {
    hide Lead, RowInput;
    if k == 0 {
      NoLead(px, res, w);
    } else {
      hide Error;
      LeadVanishesOnlyWhenQuiet(px, res, w, k - 1);
      LeadGrows(px, res, w, k - 1);
    }
  }

  lemma {:induction false} QuietLinesAgree(px: seq<int>, res: seq<int>, w: nat, k: nat)
    requires RowInput(px, res, w) && k <= w && w % 4 == 0
    requires Quiet(px, res, k)
    ensures Next(px, res, w, k) == ArmNext(px, res, w, k)
  {
    if k > 0 {
      var j := k - 1;
      QuietLinesAgree(px, res, w, j);
      BothStep(px, res, w, j);
      var e := Error(Gray16, px, res, j);
      LoudShares(e);
      if j < 4 {
        assert Pos(HalfStep, j) == j;
      } else {
        hide Next, ArmNext, Error, Share, Pos;
        DepositNothing(Next(px, res, w, j), j, j);
        DepositNothing(Next(px, res, w, j), j, Pos(HalfStep, j));
      }
    }
  }

  lemma DepositNothing(line: seq<int>, k: nat, p: nat)
    requires p < |line| && (k > 0 ==> p > 0)
    ensures Deposited(line, k, p, 0, 0) == line
  {
  }

  /** From a cleared line, the two rows leave the same residuals exactly when no pixel from the fifth on
      loses more than 3. Their nibbles always agree: both pack `Level`. */
  lemma ArmLineAgreesIffQuiet(px: seq<int>, res: seq<int>, w: nat)
    requires RowInput(px, res, w) && w % 4 == 0
    ensures Next(px, res, w, w) == ArmNext(px, res, w, w) <==> Quiet(px, res, w)
  {
    if Next(px, res, w, w) == ArmNext(px, res, w, w) {
      LeadVanishesOnlyWhenQuiet(px, res, w, w);
    }
    if Quiet(px, res, w) {
      QuietLinesAgree(px, res, w, w);
    }
  }

  lemma {:induction false} BlackPixels(px: seq<int>, res: seq<int>, k: nat)
    requires k < |px| && k < |res| && forall j :: 0 <= j < k ==> px[j] == 0 && res[j] == 0
    ensures Carry(Gray16, px, res, k) == 0
  {
    if k > 0 {
      BlackPixels(px, res, k - 1);
      assert Total(Gray16, px, res, k - 1) == 0;
    }
  }

  lemma ErrorOf15(px: seq<int>, res: seq<int>, k: nat)
    requires k < |px| && k < |res| && px[k] == 15 && res[k] == 0 && Carry(Gray16, px, res, k) == 0
    ensures Error(Gray16, px, res, k) == 15
  {
    hide Carry;
  }

  /** A row on which they differ: eight black pixels but for the fifth. */
  lemma ArmLineDiffers()
    ensures var px, res := [0, 0, 0, 0, 15, 0, 0, 0], Zeros(8);
            RowInput(px, res, 8) && Next(px, res, 8, 8) != ArmNext(px, res, 8, 8)
  {
    hide Next, ArmNext, Error, Carry;
    var px: seq<int>, res := [0, 0, 0, 0, 15, 0, 0, 0], Zeros(8);
    BlackPixels(px, res, 4);
    ErrorOf15(px, res, 4);
    ArmLineAgreesIffQuiet(px, res, 8);
  }
}
