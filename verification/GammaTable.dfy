/** hwcomposer.cpp, `init_gamma_table` and `gray256_to_gray16`: 256 grey values onto 16 levels. */
module GammaTable {
  import opened Arithmetic

  const MAX_GAMMA_LEVEL := 80

  /** Levels below 80; at 80 the source divides by zero. */
  predicate Proper(level: int) {
    0 <= level < MAX_GAMMA_LEVEL
  }

  function WhiteCount(level: int): int {
    if level < MAX_GAMMA_LEVEL then 16 + level / 2 else 100
  }

  function BlackCount(level: int): int {
    if level < MAX_GAMMA_LEVEL then 16 + level * 2 else 156
  }

  /** How many grey values are left for the 14 middle levels. */
  function MiddleCount(level: int): int {
    256 - BlackCount(level) - WhiteCount(level)
  }

  /** How many of them precede the band of middle level g: equal shares, the first bands one larger. */
  function BandStart(n: nat, g: nat): nat
    requires g >= 1
  {
    (g - 1) * (n / 14) + if g - 1 < n % 14 then g - 1 else n % 14
  }

  /** Level g is the value of distance d into the middle; 15 beyond it. */
  ghost predicate InBand(n: nat, g: nat, d: nat) {
    1 <= g <= 15 && BandStart(n, g) <= d && (g <= 14 ==> d < BandStart(n, g + 1))
  }

  /** What entry i of the table for a proper level has to be. */
  ghost predicate IsEntry(level: int, i: nat, v: int)
    requires Proper(level)
  {
    if i < BlackCount(level) then v == 0
    else if i >= 256 - WhiteCount(level) then v == 15
    else 1 <= v <= 14 && InBand(MiddleCount(level), v, i - BlackCount(level))
  }

  ghost predicate IsTable(level: int, t: seq<int>)
    requires Proper(level)
  {
    |t| == 256 && forall i :: 0 <= i < 256 ==> IsEntry(level, i, t[i])
  }

  // ---- Arithmetic of the bands ----

  lemma BandSize(n: nat, g: nat)
    requires 1 <= g <= 14
    ensures BandStart(n, g + 1) - BandStart(n, g) == n / 14 + if g <= n % 14 then 1 else 0
  {
    assert g * (n / 14) == (g - 1) * (n / 14) + n / 14;
  }

  lemma BandsEnd(n: nat)
    ensures BandStart(n, 15) == n && BandStart(n, 1) == 0
  {
  }

  /** In a larger band the first formula gives the band, and the remainder is zero at its first value only. */
  lemma LargeBandFormula(n: nat, g: nat, d: nat)
    requires 1 <= g <= n % 14 && InBand(n, g, d)
    ensures (d + n / 14 + 1) / (n / 14 + 1) == g
    ensures (d + n / 14 + 1) % (n / 14 + 1) == 0 <==> d == BandStart(n, g)
  {
    BandSize(n, g);
    var m := n / 14;
    var t := d - BandStart(n, g);
    assert BandStart(n, g) == (g - 1) * (m + 1) by { assert (g - 1) * (m + 1) == (g - 1) * m + (g - 1); }
    assert d + m + 1 == g * (m + 1) + t by { assert g * (m + 1) == (g - 1) * (m + 1) + (m + 1); }
    Split(g, m + 1, t);
  }

  /** From the second value of the last larger band on, the second formula does. */
  lemma SmallBandFormula(n: nat, g: nat, d: nat)
    requires n >= 14 && InBand(n, g, d)
    requires g > n % 14 || (g == n % 14 && d > BandStart(n, g))
    requires g == 15 ==> d == n
    ensures (d - n % 14 + n / 14) / (n / 14) == g
  {
    var m, r := n / 14, n % 14;
    if g <= 14 { BandSize(n, g); }
    BandsEnd(n);
    var t := d - BandStart(n, g);
    assert g * m == (g - 1) * m + m;
    if g > r {
      assert d - r + m == g * m + t;
      Split(g, m, t);
    } else {
      assert d - r + m == g * m + (t - 1);
      Split(g, m, t - 1);
    }
  }

  // ---- The table and its cache ----

  /** The formula used while larger bands remain, and its test for the first value of one. */
  function LargeBand(d: int, changeMultiple: nat): int {
    (d + changeMultiple + 1) / (changeMultiple + 1)
  }

  predicate OpensLargeBand(d: int, changeMultiple: nat) {
    (d + changeMultiple + 1) % (changeMultiple + 1) * 2 == 0
  }

  /** The formula used after that. */
  function SmallBand(d: int, remainder: int, changeMultiple: nat): int
    requires changeMultiple > 0
  {
    (d - remainder + changeMultiple) / changeMultiple
  }

  /** What the static table holds: nothing yet, the table for a level, or what a division by zero left of it. */
  datatype Held = Nothing | Holds(level: int) | Faulted

  /** What is held after a request. The table starts all black with 0 recorded as its level, so a first request for 0
      builds nothing. Nothing is recovered from a division by zero. */
  function Requested(held: Held, level: int): Held {
    if held == Faulted || level == MAX_GAMMA_LEVEL then Faulted
    else if !Proper(level) || (held == Nothing && level == 0) then held
    else Holds(level)
  }

  /** How many bytes h rows of w pixels take. */
  function Bytes(w: nat, h: nat): nat {
    h * (w / 2)
  }

  lemma FirstBytes(w: nat)
    ensures Bytes(w, 0) == 0
  {
  }

  lemma NextBytes(w: nat, i: nat, h: nat)
    requires i < h
    ensures Bytes(w, i + 1) == Bytes(w, i) + w / 2 <= Bytes(w, h)
  {
    assert Bytes(w, i + 1) == Bytes(w, i) + w / 2;
    Grow(i + 1, h, w / 2);
  }

  /** The level of pixel k of packed pixels. */
  function Unpacked(packed: seq<nat>, k: nat): nat
    requires k < 2 * |packed|
  {
    if k % 2 == 0 then packed[k / 2] % 0x10 else packed[k / 2] / 0x10
  }

  /** Among the first n pixels, the order of levels is that of the pixels. */
  ghost predicate OrderKept(src: seq<nat>, packed: seq<nat>, n: nat)
    requires n <= |src| && n <= 2 * |packed|
  {
    forall p: nat, q: nat :: p < n && q < n && src[p] <= src[q] ==> Unpacked(packed, p) <= Unpacked(packed, q)
  }

  lemma PackOne(packed: seq<nat>, d: nat, g0: nat, g1: nat)
    requires d < |packed| && g0 < 16
    ensures forall k: nat :: k < 2 * d ==> Unpacked(packed[d := g0 + g1 * 0x10], k) == Unpacked(packed, k)
    ensures Unpacked(packed[d := g0 + g1 * 0x10], 2 * d) == g0
    ensures Unpacked(packed[d := g0 + g1 * 0x10], 2 * d + 1) == g1
  {
  }

  /** The static table and the static record of the level it was last built for. */
  class Gamma {
    const gama: array<int>
    var lastGammaLevel: int
    ghost var loaded: Held

    ghost predicate Valid()
      reads this, gama
    {
      && gama.Length == 256
      && match loaded
         case Nothing => lastGammaLevel == 0 && forall i :: 0 <= i < 256 ==> gama[i] == 0
         case Holds(level) => lastGammaLevel == level && Proper(level) && IsTable(level, gama[..])
         case Faulted => false
    }

    constructor ()
      ensures Valid() && loaded == Nothing && fresh(gama)
    {
      gama := new int[256](_ => 0);
      lastGammaLevel := 0;
      loaded := Nothing;
    }

    /** `fault` says that the source divides by zero: at level 80, with the black part of the table written. */
    method InitGammaTable(gammaLevel: int) returns (fault: bool)
      requires Valid()
      modifies this, gama
      ensures fault <==> gammaLevel == 80
      ensures !fault ==> Valid()
      ensures loaded == if fault then Faulted else if 0 <= gammaLevel < 80 then Holds(gammaLevel) else old(loaded)
      ensures !fault && !(0 <= gammaLevel < 80) ==> gama[..] == old(gama[..])
      ensures fault ==> lastGammaLevel == 80
      ensures fault ==> forall k :: 0 <= k < 256 ==> gama[k] == if k < 156 then 0 else old(gama[k])
    {
      if gammaLevel < 0 || gammaLevel > MAX_GAMMA_LEVEL {
        return false;
      }
      var currentGammaLevel := gammaLevel;
      lastGammaLevel := currentGammaLevel;
      var whiteCount, blackCount;
      if currentGammaLevel < MAX_GAMMA_LEVEL {
        whiteCount := 16 + currentGammaLevel / 2;
        blackCount := 16 + currentGammaLevel * 2;
      } else {
        whiteCount, blackCount := 100, 156;
      }
      fault := FillTable(gammaLevel, whiteCount, blackCount);
      loaded := Faulted;
      if !fault {
        TableDone(gammaLevel, gama[..]);
        loaded := Holds(gammaLevel);
      }
    }

    /** One entry between black and white. */
    method MiddleGray(d: nat, changeMultiple: nat, before: int, tempRemainder: int, ghost n: nat, ghost g: nat)
      returns (gray: int, remainder: int)
      requires changeMultiple == n / 14 > 0 && tempRemainder == n % 14 && Cursor(n, g, d, before)
      ensures gray == g && remainder == if before > 0 && d == BandStart(n, g) then before - 1 else before
    {
      CursorFormula(n, g, d, before);
      hide *;
      remainder := before;
      if remainder > 0 {
        gray := LargeBand(d, changeMultiple);
        if OpensLargeBand(d, changeMultiple) {
          remainder := remainder - 1;
        }
      } else {
        gray := SmallBand(d, tempRemainder, changeMultiple);
      }
    }

    /** The loop over the table. */
    method FillTable(gammaLevel: int, whiteCount: int, blackCount: int) returns (fault: bool)
      requires gama.Length == 256 && 0 <= gammaLevel <= MAX_GAMMA_LEVEL
      requires whiteCount == WhiteCount(gammaLevel) && blackCount == BlackCount(gammaLevel)
      modifies gama
      ensures fault <==> gammaLevel == MAX_GAMMA_LEVEL
      ensures !fault ==> forall k :: 0 <= k < 256 ==> IsEntry(gammaLevel, k, gama[k])
      ensures fault ==> forall k :: 0 <= k < 256 ==> gama[k] == if k < 156 then 0 else old(gama[k])
    {
      var changeMultiple := (256 - blackCount - whiteCount) / 14;
      var whiteIndex := 256 - whiteCount;
      var remainder := (256 - blackCount - whiteCount) % 14;
      var tempRemainder := remainder;
      ghost var n: nat := 256 - blackCount - whiteCount;
      ghost var g := 1;
      TableCounted(gammaLevel);
      hide *;
      for i := 0 to 256
        invariant Proper(gammaLevel) ==> forall k :: 0 <= k < i ==> IsEntry(gammaLevel, k, gama[k])
        invariant g >= 1
        invariant i <= blackCount ==> g == 1 && remainder == tempRemainder
        invariant Proper(gammaLevel) && blackCount <= i <= whiteIndex ==> Cursor(n, g, i - blackCount, remainder)
        invariant !Proper(gammaLevel) ==> i <= blackCount
        invariant !Proper(gammaLevel) ==> forall k :: 0 <= k < 256 ==> gama[k] == if k < i then 0 else old(gama[k])
      {
        if i < blackCount {
          gama[i] := 0;
          if Proper(gammaLevel) {
            OuterEntry(gammaLevel, i);
            if i + 1 == blackCount { CursorStart(n); }
          }
        } else if i > whiteIndex {
          gama[i] := 15;
          OuterEntry(gammaLevel, i);
        } else {
          if remainder <= 0 && changeMultiple == 0 {
            return true;
          }
          ghost var d, before := i - blackCount, remainder;
          var gray;
          gray, remainder := MiddleGray(i - blackCount, changeMultiple, remainder, tempRemainder, n, g);
          gama[i] := gray;
          assert gama[i] == g;
          MiddleEntry(gammaLevel, n, g, d, before);
          if d < n {
            CursorStep(n, g, d, before);
            g := if d + 1 == BandStart(n, g + 1) then g + 1 else g;
          }
        }
      }
      return false;
    }

    /** One image: `gammaLevel` is the value of the property, pixels are packed two to a byte. */
    method Gray256ToGray16(gammaLevel: int, src: seq<nat>, dst: array<nat>, h: nat, w: nat) returns (fault: bool)
      requires Valid() && dst as object != gama
      requires forall k :: 0 <= k < |src| ==> src[k] < 256
      requires 2 * (h * (w / 2)) <= |src| && h * (w / 2) <= dst.Length
      modifies this, gama, dst
      ensures fault <==> gammaLevel == 80
      ensures fault ==> dst[..] == old(dst[..])
      ensures loaded == Requested(old(loaded), gammaLevel) && (!fault ==> Valid())
      ensures !fault ==> forall m :: 0 <= m < h * (w / 2) ==> dst[m] == gama[src[2 * m]] + 16 * gama[src[2 * m + 1]]
      ensures !fault ==> OrderKept(src, dst[..], 2 * (h * (w / 2)))
      ensures forall m :: h * (w / 2) <= m < dst.Length ==> dst[m] == old(dst[m])
    {
      if gammaLevel != lastGammaLevel {
        fault := InitGammaTable(gammaLevel);
        if fault {
          return;
        }
      }
      LevelsInRange();
      PackImage(src, dst, h, w);
      BytesOfLevels(src, dst[..], Bytes(w, h));
      OrderOfLevels(src, dst[..], 2 * Bytes(w, h));
      return false;
    }

    /** The loops over the pixels. */
    method PackImage(src: seq<nat>, dst: array<nat>, h: nat, w: nat)
      requires gama.Length == 256 && dst as object != gama
      requires forall i :: 0 <= i < 256 ==> 0 <= gama[i] <= 15
      requires forall k :: 0 <= k < |src| ==> src[k] < 256
      requires 2 * Bytes(w, h) <= |src| && Bytes(w, h) <= dst.Length
      modifies dst
      ensures forall k :: 0 <= k < 2 * Bytes(w, h) ==> Unpacked(dst[..], k) == gama[src[k]]
      ensures forall m :: Bytes(w, h) <= m < dst.Length ==> dst[m] == old(dst[m])
    {
      hide Bytes, Unpacked;
      var s, d := 0, 0;
      FirstBytes(w);
      for i := 0 to h
        invariant d == Bytes(w, i) && s == 2 * d && d <= Bytes(w, h)
        invariant forall k :: 0 <= k < s ==> Unpacked(dst[..], k) == gama[src[k]]
        invariant forall m :: d <= m < dst.Length ==> dst[m] == old(dst[m])
      {
        NextBytes(w, i, h);
        for j := 0 to w / 2
          invariant d == Bytes(w, i) + j && s == 2 * d
          invariant forall k :: 0 <= k < s ==> Unpacked(dst[..], k) == gama[src[k]]
          invariant forall m :: d <= m < dst.Length ==> dst[m] == old(dst[m])
        {
          var g0 := gama[src[s]];
          s := s + 1;
          var g3 := gama[src[s]] * 0x10;
          s := s + 1;
          PackOne(dst[..], d, g0, gama[src[s - 1]]);
          ghost var before := dst[..];
          dst[d] := g0 + g3;
          assert dst[..] == before[d := g0 + g3];
          d := d + 1;
        }
      }
    }

    /** Whatever table is held, a brighter pixel does not get a darker level. */
    lemma OrderOfLevels(src: seq<nat>, packed: seq<nat>, n: nat)
      requires Valid() && n <= |src| && n <= 2 * |packed|
      requires forall k :: 0 <= k < |src| ==> src[k] < 256
      requires forall k :: 0 <= k < n ==> Unpacked(packed, k) == gama[src[k]]
      ensures OrderKept(src, packed, n)
    {
      hide Unpacked, IsTable;
      if loaded.Holds? {
        forall p: nat, q: nat | p < n && q < n && src[p] <= src[q] ensures Unpacked(packed, p) <= Unpacked(packed, q) {
          TableMonotone(loaded.level, gama[..], src[p], src[q]);
        }
      }
    }

    lemma BytesOfLevels(src: seq<nat>, packed: seq<nat>, n: nat)
      requires gama.Length == 256 && 2 * n <= |src| && n <= |packed|
      requires forall k :: 0 <= k < |src| ==> src[k] < 256
      requires forall k :: 0 <= k < 2 * n ==> Unpacked(packed, k) == gama[src[k]]
      ensures forall m :: 0 <= m < n ==> packed[m] == gama[src[2 * m]] + 16 * gama[src[2 * m + 1]]
    {
      forall m | 0 <= m < n ensures packed[m] == gama[src[2 * m]] + 16 * gama[src[2 * m + 1]] {
        assert Unpacked(packed, 2 * m) == packed[m] % 16 && Unpacked(packed, 2 * m + 1) == packed[m] / 16;
      }
    }

    lemma LevelsInRange()
      requires Valid()
      ensures forall i :: 0 <= i < 256 ==> 0 <= gama[i] <= 15
    {
      if loaded.Holds? {
        forall i | 0 <= i < 256 ensures 0 <= gama[i] <= 15 {
          TableMonotone(loaded.level, gama[..], i, i);
        }
      }
    }
  }

  /** Where the loop stands: d lies in band g, and `remainder` counts the larger bands not yet begun. */
  ghost predicate Cursor(n: nat, g: nat, d: nat, remainder: int) {
    && InBand(n, g, d) && d <= n && (g == 15 <==> d == n)
    && remainder == (if g > n % 14 then 0 else n % 14 - g + if d == BandStart(n, g) then 1 else 0)
  }

  lemma CursorStart(n: nat)
    requires n >= 14
    ensures Cursor(n, 1, 0, n % 14)
  {
    BandSize(n, 1);
    BandsEnd(n);
  }

  /** Either formula gives the band, whichever the remainder selects. */
  lemma CursorFormula(n: nat, g: nat, d: nat, remainder: int)
    requires n >= 14 && Cursor(n, g, d, remainder)
    ensures remainder > 0 ==> LargeBand(d, n / 14) == g
    ensures remainder > 0 ==> (OpensLargeBand(d, n / 14) <==> d == BandStart(n, g))
    ensures remainder <= 0 ==> SmallBand(d, n % 14, n / 14) == g
  {
    if remainder > 0 {
      LargeBandFormula(n, g, d);
    } else {
      SmallBandFormula(n, g, d);
    }
  }

  /** The next value is in the same band or opens the next one. */
  lemma CursorStep(n: nat, g: nat, d: nat, remainder: int)
    requires n >= 14 && Cursor(n, g, d, remainder) && d < n
    ensures g <= 14
    ensures Cursor(n, if d + 1 == BandStart(n, g + 1) then g + 1 else g, d + 1,
                   if remainder > 0 && d == BandStart(n, g) then remainder - 1 else remainder)
  {
    BandSize(n, g);
    if g < 14 { BandSize(n, g + 1); }
    BandsEnd(n);
    hide BandStart;
  }

  /** What the loop knows of its counts; at level 80 nothing is left between black and white. */
  lemma TableCounted(level: int)
    requires 0 <= level <= MAX_GAMMA_LEVEL
    ensures var n := MiddleCount(level);
            && 0 <= n == 256 - BlackCount(level) - WhiteCount(level) && 0 < BlackCount(level)
            && (Proper(level) <==> level != MAX_GAMMA_LEVEL)
            && (Proper(level) ==> n >= 14 && n / 14 > 0)
            && (!Proper(level) ==> n == 0 && n / 14 == 0 && n % 14 == 0 && BlackCount(level) == 156)
  {
  }

  lemma OuterEntry(level: int, i: nat)
    requires Proper(level)
    ensures i < BlackCount(level) ==> IsEntry(level, i, 0)
    ensures i >= 256 - WhiteCount(level) ==> IsEntry(level, i, 15)
  {
  }

  lemma MiddleEntry(level: int, n: nat, g: nat, d: nat, remainder: int)
    requires Proper(level) && n == MiddleCount(level) && Cursor(n, g, d, remainder)
    ensures BlackCount(level) + d >= 0 && IsEntry(level, BlackCount(level) + d, g)
  {
  }

  lemma TableDone(level: int, t: seq<int>)
    requires Proper(level) && |t| == 256 && forall k :: 0 <= k < 256 ==> IsEntry(level, k, t[k])
    ensures IsTable(level, t)
  {
  }

  // ---- What a table is good for ----

  lemma {:induction false} BandStartMonotone(n: nat, g: nat, h: nat)
    requires 1 <= g <= h <= 15
    ensures BandStart(n, g) <= BandStart(n, h)
    decreases h - g
  {
    if g < h {
      BandSize(n, h - 1);
      BandStartMonotone(n, g, h - 1);
    }
  }

  /** Brighter pixels never get a darker level. */
  lemma TableMonotone(level: int, t: seq<int>, p: nat, q: nat)
    requires Proper(level) && IsTable(level, t) && p <= q < 256
    ensures 0 <= t[p] <= t[q] <= 15
  {
    assert IsEntry(level, p, t[p]) && IsEntry(level, q, t[q]);
    var n, b := MiddleCount(level), BlackCount(level);
    if b <= p && q < 256 - WhiteCount(level) && t[q] < t[p] {
      BandStartMonotone(n, t[q] + 1, t[p]);
      assert false;
    }
  }

  /** Black gets the first 16 + 2 * level values, white the last 16 + level / 2, and the 14 middle levels share the
      rest: each gets a fourteenth, the first ones one more until nothing is left over. */
  lemma TableCounts(level: int, t: seq<int>, i: nat, g: nat)
    requires 0 <= level < 80 && IsTable(level, t) && i < 256 && 1 <= g <= 14
    ensures t[i] == 0 <==> i < 16 + 2 * level
    ensures t[i] == 15 <==> i >= 240 - level / 2
    ensures var n := 224 - 2 * level - level / 2;
            var start := 16 + 2 * level + (g - 1) * (n / 14) + (if g - 1 < n % 14 then g - 1 else n % 14);
            t[i] == g <==> start <= i < start + n / 14 + if g - 1 < n % 14 then 1 else 0
  {
    CountsInBands(level, t, i, g);
    BandSize(MiddleCount(level), g);
    hide IsTable;
  }

  lemma CountsInBands(level: int, t: seq<int>, i: nat, g: nat)
    requires Proper(level) && IsTable(level, t) && i < 256 && 1 <= g <= 14
    ensures t[i] == 0 <==> i < BlackCount(level)
    ensures t[i] == 15 <==> i >= 256 - WhiteCount(level)
    ensures var n, b := MiddleCount(level), BlackCount(level);
            t[i] == g <==> b + BandStart(n, g) <= i < b + BandStart(n, g + 1)
  {
    var n, b := MiddleCount(level), BlackCount(level);
    assert IsEntry(level, i, t[i]);
    BandsEnd(n);
    if b <= i < 256 - WhiteCount(level) {
      var v := t[i];
      if v < g { BandStartMonotone(n, v + 1, g); }
      if v > g { BandStartMonotone(n, g + 1, v); }
    } else if i < b {
      BandStartMonotone(n, 1, g);
    } else {
      BandStartMonotone(n, g + 1, 15);
    }
  }

  lemma BandSizes(level: int, g: nat, h: nat)
    requires Proper(level) && 1 <= g <= h <= 14
    ensures var n := MiddleCount(level);
            && BandStart(n, h + 1) - BandStart(n, h) <= BandStart(n, g + 1) - BandStart(n, g)
            && BandStart(n, g + 1) - BandStart(n, g) <= BandStart(n, h + 1) - BandStart(n, h) + 1
            && BandStart(n, h) < BandStart(n, h + 1)
  {
    BandSize(MiddleCount(level), g);
    BandSize(MiddleCount(level), h);
  }

  /** At the highest level no middle value is left, but index 156 is still sent to the second formula, whose
      divisor is then zero. */
  lemma Level80DividesByZero()
    ensures MiddleCount(80) / 14 == 0 && MiddleCount(80) % 14 == 0
    ensures !(156 < BlackCount(80)) && !(156 > 256 - WhiteCount(80))
    ensures forall level :: 0 <= level < 80 ==> MiddleCount(level) / 14 > 0
  {
  }

  // ---- Any sequence of requests ----

  function HeldAfter(levels: seq<int>): Held {
    if levels == [] then Nothing else Requested(HeldAfter(levels[..|levels| - 1]), levels[|levels| - 1])
  }

  function LastProper(levels: seq<int>): Held {
    if levels == [] then Nothing
    else if 0 <= levels[|levels| - 1] < 80 then Holds(levels[|levels| - 1])
    else LastProper(levels[..|levels| - 1])
  }

  ghost predicate AsksForTable(levels: seq<int>) {
    exists l :: l in levels && 0 < l < 80
  }

  /** A request for the highest level ends it all. Short of that, once a proper level other than 0 has been requested,
      the table is that of the last proper level requested; before that there is none. */
  lemma {:induction false} TableOfLastLevel(levels: seq<int>)
    ensures HeldAfter(levels)
         == if 80 in levels then Faulted
            else if AsksForTable(levels) then LastProper(levels) else Nothing
  {
    if levels != [] {
      var before, last := levels[..|levels| - 1], levels[|levels| - 1];
      TableOfLastLevel(before);
      assert levels == before + [last];
      if AsksForTable(before) {
        var l :| l in before && 0 < l < 80;
        HasProper(before, l);
        assert l in levels;
      } else if 0 < last < 80 {
        assert last in levels;
      }
    }
  }

  lemma {:induction false} HasProper(levels: seq<int>, l: int)
    requires l in levels && 0 <= l < 80
    ensures LastProper(levels).Holds?
  {
    var n := |levels| - 1;
    if !(0 <= levels[n] < 80) {
      assert levels == levels[..n] + [levels[n]];
      HasProper(levels[..n], l);
    }
  }
}
