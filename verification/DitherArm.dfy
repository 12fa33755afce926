/** rgb888_to_gray_256_neon.s, `neon_rgb256_to_gray16DITHER`, and how it relates to the C row.

    The routine walks the line it consumes four cells per iteration but the line it fills only
    two cells per iteration (`add r3,r3,#4` on a line of halfwords), so the nibbles of a row agree
    with the C row and the residual line in general does not. */
module DitherArm {
  import opened ErrorDiffusion
  import opened DitherLines
  import opened DitherRow16

  /** ldrh, add, strh on one cell of the line being filled. */
  method AddHalf(line: array<int>, m: nat, v: int)
    requires m < line.Length
    modifies line
    ensures line[..] == AddTo(HalfStep, old(line[..]), m, v)
  {
    line[m] := Half(line[m] + v);
  }

  /** str of a zero word: two cells at once. */
  method ClearPair(line: array<int>, m: nat)
    requires m + 1 < line.Length
    modifies line
    ensures line[..] == old(line[..])[m := 0][m + 1 := 0]
  {
    line[m] := 0;
    line[m + 1] := 0;
  }

  /** What lines of halfwords hold: the routine loads them zero-extended. */
  ghost predicate Halfwords(line: seq<int>) {
    forall m :: 0 <= m < |line| ==> 0 <= line[m] < 0x1_0000
  }

  function Saturate(r: int): int {
    if r >= 0xff then 0xff else r
  }

  /** The carry and the line being filled after the first k pixels. */
  ghost predicate ArmAt(px: seq<int>, r0: seq<int>, r1: seq<int>, w: nat, k: nat, carry: int, line: seq<int>) {
    && k <= w == |px| && w <= |r0| && w <= |r1|
    && carry == Carry(Gray16, px, r0, k)
    && line == Line(Gray16, HalfStep, w, false, px, r0, r1, k)
  }

  /** The three additions of one pixel, lower right share last. */
  function ArmSpread(line: seq<int>, w: nat, k: nat, p: int, v1: int, v2: int, v3: int): seq<int> {
    var a := if k > 0 then AddTo(HalfStep, line, p - 1, v1) else line;
    var b := AddTo(HalfStep, a, p, v2);
    if k + 1 < w then AddTo(HalfStep, b, p + 1, v3) else b
  }

  lemma AddsCommute(line: seq<int>, m: int, v: int, n: int, u: int)
    requires m != n
    ensures AddTo(HalfStep, AddTo(HalfStep, line, m, v), n, u) == AddTo(HalfStep, AddTo(HalfStep, line, n, u), m, v)
  {
  }

  /** The routine adds the shares in another order than the specification. */
  lemma LowerLeftLast(line: seq<int>, w: nat, k: nat, p: int, v1: int, v2: int, v3: int)
    ensures k > 0 && k + 1 < w ==>
      AddTo(HalfStep, AddTo(HalfStep, AddTo(HalfStep, line, p, v2), p + 1, v3), p - 1, v1)
          == ArmSpread(line, w, k, p, v1, v2, v3)
    ensures k == 0 && k + 1 < w ==>
      AddTo(HalfStep, AddTo(HalfStep, line, p, v2), p + 1, v3) == ArmSpread(line, w, k, p, v1, v2, v3)
  {
    AddsCommute(AddTo(HalfStep, line, p, v2), p + 1, v3, p - 1, v1);
    AddsCommute(line, p, v2, p - 1, v1);
    hide AddTo;
  }

  lemma ArmPixel(px: seq<int>, r0: seq<int>, r1: seq<int>, w: nat, k: nat, carry: int, line: seq<int>)
    requires ArmAt(px, r0, r1, w, k, carry, line) && k < w
    ensures |line| == |r1| && w <= |r0| && w <= |r1| && w == |px|
    ensures var r := Saturate(px[k] + r0[k] + carry);
            var e := r - HighNibble(r);
            && ArmAt(px, r0, r1, w, k + 1, Share(e, 7),
                     ArmSpread(line, w, k, Pos(HalfStep, k), Share(e, 3), Share(e, 5), Share(e, 1)))
            && HighNibble(r) == 16 * Level(Gray16, px, r0, k)
  {
    var r := Saturate(px[k] + r0[k] + carry);
    assert r == Total(Gray16, px, r0, k);
    var e := r - HighNibble(r);
    assert e == Error(Gray16, px, r0, k);
    assert Carry(Gray16, px, r0, k + 1) == Share(e, 7);
    hide Total, Error, Carry, Saturate, AddTo, Quantize;
    assert Line(Gray16, HalfStep, w, false, px, r0, r1, k + 1) == Deposit(HalfStep, w, false, line, k, e);
  }

  /** Three cells of the line being filled, in the routine's order: 5/16, 1/16, 3/16. */
  method AddAround(line: array<int>, m: nat, v2: int, v3: int, v1: int)
    requires 0 < m && m + 1 < line.Length
    modifies line
    ensures line[..] == AddTo(HalfStep, AddTo(HalfStep, AddTo(HalfStep, old(line[..]), m, v2), m + 1, v3), m - 1, v1)
  {
    line[m] := Half(line[m] + v2);
    line[m + 1] := Half(line[m + 1] + v3);
    line[m - 1] := Half(line[m - 1] + v1);
  }

  lemma ClearedPair(before: seq<int>, now: seq<int>, k: nat)
    requires Cleared(before, now, k) && k + 2 <= |now|
    ensures |before| == |now| && now[k] == before[k] && now[k + 1] == before[k + 1]
    ensures Cleared(before, now[k := 0][k + 1 := 0], k + 2)
  {
  }

  lemma HalfStepPos(j: nat, t: nat)
    requires t < 4
    ensures Pos(HalfStep, 4 * j + t) == 2 * j + t
  {
    assert (4 * j + t) / 4 == j && (4 * j + t) % 4 == t;
  }

  /** From the label LOOP_DITHER to PIX3: the two low bytes of the word. */
  method ArmLowPair(r9: nat, res0: array<int>, res1: array<int>, w: nat, r2: nat, r3: nat, carry: int,
                    ghost px: seq<int>, ghost r0: seq<int>, ghost r1: seq<int>)
    returns (r5: int, g0: int, g1: int)
    requires res0 != res1
    requires 2 * r3 == r2 && r2 % 4 == 0 && r2 + 4 <= w && w <= res0.Length && r3 + 3 < res1.Length
    requires ArmAt(px, r0, r1, w, r2, carry, res1[..]) && Cleared(r0, res0[..], r2)
    requires px[r2] == Byte(r9, 0) && px[r2 + 1] == Byte(r9, 1)
    modifies res0, res1
    ensures ArmAt(px, r0, r1, w, r2 + 2, r5, res1[..]) && Cleared(r0, res0[..], r2 + 2)
    ensures g0 == 16 * Level(Gray16, px, r0, r2) && g1 == 16 * Level(Gray16, px, r0, r2 + 1)
  {
    hide Line, Carry, Level, Error, Total, Saturate, AddTo, ArmAt, Byte, Share, HighNibble, Quantize, Deposit, Cleared;
    r5 := carry;
    ClearedPair(r0, res0[..], r2);
    HalfStepPos(r2 / 4, 0);
    HalfStepPos(r2 / 4, 1);

    ArmPixel(px, r0, r1, w, r2, r5, res1[..]);
    var r10 := Saturate(Byte(r9, 0) + res0[r2] + r5);
    g0 := HighNibble(r10);
    r10 := r10 - g0;
    r5 := Share(r10, 7);
    LowerLeftLast(res1[..], w, r2, r3, Share(r10, 3), Share(r10, 5), Share(r10, 1));
    if r2 == 0 {
      AddHalf(res1, r3, Share(r10, 5));
      AddHalf(res1, r3 + 1, Share(r10, 1));
    } else {
      AddAround(res1, r3, Share(r10, 5), Share(r10, 1), Share(r10, 3));
    }

    ArmPixel(px, r0, r1, w, r2 + 1, r5, res1[..]);
    r10 := Saturate(Byte(r9, 1) + res0[r2 + 1] + r5);
    ClearPair(res0, r2);
    g1 := HighNibble(r10);
    r10 := r10 - g1;
    r5 := Share(r10, 7);
    LowerLeftLast(res1[..], w, r2 + 1, r3 + 1, Share(r10, 3), Share(r10, 5), Share(r10, 1));
    AddAround(res1, r3 + 1, Share(r10, 5), Share(r10, 1), Share(r10, 3));
  }

  /** From PIX3 to PIXEND: the two high bytes. */
  method ArmHighPair(r9: nat, res0: array<int>, res1: array<int>, w: nat, r2: nat, r3: nat, carry: int,
                     ghost px: seq<int>, ghost r0: seq<int>, ghost r1: seq<int>)
    returns (r5: int, g2: int, g3: int)
    requires res0 != res1
    requires 2 * r3 == r2 && r2 % 4 == 0 && r2 + 4 <= w && w <= res0.Length && r3 + 3 < res1.Length
    requires r2 != w - 4 ==> r3 + 4 < res1.Length
    requires ArmAt(px, r0, r1, w, r2 + 2, carry, res1[..]) && Cleared(r0, res0[..], r2 + 2)
    requires px[r2 + 2] == Byte(r9, 2) && px[r2 + 3] == Byte(r9, 3)
    modifies res0, res1
    ensures ArmAt(px, r0, r1, w, r2 + 4, r5, res1[..]) && Cleared(r0, res0[..], r2 + 4)
    ensures g2 == 16 * Level(Gray16, px, r0, r2 + 2) && g3 == 16 * Level(Gray16, px, r0, r2 + 3)
  {
    hide Line, Carry, Level, Error, Total, Saturate, AddTo, ArmAt, Byte, Share, HighNibble, Quantize, Deposit, Cleared;
    r5 := carry;
    ClearedPair(r0, res0[..], r2 + 2);
    HalfStepPos(r2 / 4, 2);
    HalfStepPos(r2 / 4, 3);

    ArmPixel(px, r0, r1, w, r2 + 2, r5, res1[..]);
    var r10 := Saturate(Byte(r9, 2) + res0[r2 + 2] + r5);
    g2 := HighNibble(r10);
    r10 := r10 - g2;
    r5 := Share(r10, 7);
    LowerLeftLast(res1[..], w, r2 + 2, r3 + 2, Share(r10, 3), Share(r10, 5), Share(r10, 1));
    AddAround(res1, r3 + 2, Share(r10, 5), Share(r10, 1), Share(r10, 3));

    ArmPixel(px, r0, r1, w, r2 + 3, r5, res1[..]);
    r10 := Saturate(Byte(r9, 3) + res0[r2 + 3] + r5);
    ClearPair(res0, r2 + 2);
    g3 := HighNibble(r10);
    r10 := r10 - g3;
    r5 := Share(r10, 7);
    AddHalf(res1, r3 + 2, Share(r10, 3));
    AddHalf(res1, r3 + 3, Share(r10, 5));
    if r2 != w - 4 {
      AddHalf(res1, r3 + 4, Share(r10, 1));
    }
  }

  /** No sum is negative, so the routine's unsigned comparison with 0xff is the one modelled. */
  lemma {:induction false} SumsUnsigned(px: seq<int>, res: seq<int>, k: nat)
    requires k < |px| && k < |res| && Halfwords(res)
    requires forall m :: 0 <= m < |px| ==> 0 <= px[m] <= 255
    ensures 0 <= Carry(Gray16, px, res, k) <= 6
    ensures 0 <= px[k] + res[k] + Carry(Gray16, px, res, k)
  {
    if k > 0 {
      SumsUnsigned(px, res, k - 1);
      NibbleLeft(Total(Gray16, px, res, k - 1));
      hide HighNibble, Total;
    }
  }

  lemma NibbleLeft(g: int)
    requires 0 <= g <= 255
    ensures 0 <= g - HighNibble(g) < 16
  {
  }

  /** Stores leave halfwords. */
  lemma {:induction false} LineOfHalfwords(px: seq<int>, r0: seq<int>, r1: seq<int>, w: nat, k: nat)
    requires k <= |px| && k <= |r0| && Halfwords(r1)
    ensures Halfwords(Line(Gray16, HalfStep, w, false, px, r0, r1, k))
  {
    if k > 0 {
      LineOfHalfwords(px, r0, r1, w, k - 1);
      DepositOfHalfwords(Line(Gray16, HalfStep, w, false, px, r0, r1, k - 1), w, k - 1, Error(Gray16, px, r0, k - 1));
      hide Error, Deposit, Halfwords;
    }
  }

  lemma DepositOfHalfwords(line: seq<int>, w: nat, k: nat, e: int)
    requires Halfwords(line)
    ensures Halfwords(Deposit(HalfStep, w, false, line, k, e))
  {
    hide Halfwords, AddTo, Share, Pos;
    var p: int := Pos(HalfStep, k);
    var a := if k > 0 then AddTo(HalfStep, line, p - 1, Share(e, 3)) else line;
    var b := AddTo(HalfStep, a, p, Share(e, 5));
    AddHalfword(line, p - 1, Share(e, 3));
    AddHalfword(a, p, Share(e, 5));
    AddHalfword(b, p + 1, Share(e, 1));
  }

  lemma AddHalfword(line: seq<int>, m: int, v: int)
    requires Halfwords(line)
    ensures Halfwords(AddTo(HalfStep, line, m, v))
  {
  }

  /** Four levels in one halfword, the first in the lowest nibble. */
  ghost predicate HoldsFour(half: nat, px: seq<int>, res: seq<int>, at: nat) {
    && at + 4 <= |px| && at + 4 <= |res|
    && forall k :: 0 <= k < 4 ==> Nibble(half, k) == Level(Gray16, px, res, at + k)
  }

  lemma PackFour(px: seq<int>, res: seq<int>, i: nat, g: seq<int>)
    requires i + 4 <= |px| && i + 4 <= |res| && |g| == 4
    requires forall k :: 0 <= k < 4 ==> g[k] == 16 * Level(Gray16, px, res, i + k)
    ensures 0 <= g[0] / 0x10 + g[1] + g[2] * 0x10 + g[3] * 0x100
    ensures HoldsFour(g[0] / 0x10 + g[1] + g[2] * 0x10 + g[3] * 0x100, px, res, i)
  {
    hide Level;
    var l: seq<nat> := [Level(Gray16, px, res, i), Level(Gray16, px, res, i + 1), Level(Gray16, px, res, i + 2),
                        Level(Gray16, px, res, i + 3)];
    assert g[0] == 16 * l[0] && g[1] == 16 * l[1] && g[2] == 16 * l[2] && g[3] == 16 * l[3];
    assert l[3..][1..] == [] && Joined(l[3..]) == l[3];
    assert l[2..][1..] == l[3..] && Joined(l[2..]) == 16 * Joined(l[3..]) + l[2];
    assert l[1..][1..] == l[2..] && Joined(l[1..]) == 16 * Joined(l[2..]) + l[1];
    assert Joined(l) == 16 * Joined(l[1..]) + l[0];
    forall k | 0 <= k < 4 ensures Nibble(Joined(l), k) == l[k] {
      NibbleOfJoined(l, k);
    }
  }

  /** The routine. It tests for the end of the row only after an iteration, so the row must not be empty. */
  method ArmRow(src: seq<nat>, dst: array<nat>, res0: array<int>, res1: array<int>, w: nat)
    requires w > 0 && w % 4 == 0
    requires w <= 4 * |src| && w <= 4 * dst.Length
    requires w <= res0.Length && w <= res1.Length && Halfwords(res0[..]) && Halfwords(res1[..])
    requires res0 != res1 && dst as object != res0 && dst as object != res1
    modifies dst, res0, res1
    ensures Halfwords(res0[..]) && Halfwords(res1[..])
    ensures forall j :: 0 <= j < w / 4 ==> HoldsFour(dst[j], Pixels(src, 0, w), old(res0[..]), 4 * j)
    ensures forall m :: w / 4 <= m < dst.Length ==> dst[m] == old(dst[m])
    ensures res1[..] == Line(Gray16, HalfStep, w, false, Pixels(src, 0, w), old(res0[..]), old(res1[..]), w)
    ensures Cleared(old(res0[..]), res0[..], w)
  {
    hide Line, Carry, Level, Pixels, Nibble, HoldsFour, Cleared, ArmAt, Halfwords;
    ghost var px := Pixels(src, 0, w);
    ghost var line0, fill0 := res0[..], res1[..];
    var r0, r1, r2, r3, r5, r14 := 0, 0, 0, 0, 0, 0;
    ArmStart(px, line0, fill0, w);
    while true
      invariant r14 < w && r14 == 4 * r0 == 4 * r1 == r2 == 2 * r3
      invariant ArmAt(px, line0, fill0, w, r2, r5, res1[..]) && Cleared(line0, res0[..], r2)
      invariant forall j :: 0 <= j < r1 ==> HoldsFour(dst[j], px, line0, 4 * j)
      invariant forall m :: r1 <= m < dst.Length ==> dst[m] == old(dst[m])
      decreases w - r14
    {
      assert r2 + 4 <= w;
      BytesOf(src, 0, w, r0);
      var r9 := src[r0];
      var g0, g1, g2, g3;
      r5, g0, g1 := ArmLowPair(r9, res0, res1, w, r2, r3, r5, px, line0, fill0);
      r5, g2, g3 := ArmHighPair(r9, res0, res1, w, r2, r3, r5, px, line0, fill0);
      PackFour(px, line0, r2, [g0, g1, g2, g3]);
      dst[r1] := g0 / 0x10 + g1 + g2 * 0x10 + g3 * 0x100;
      r0, r1, r2, r3, r14 := r0 + 1, r1 + 1, r2 + 4, r3 + 2, r14 + 4;
      if r14 >= w {
        break;
      }
    }
    ArmEnd(px, line0, fill0, w, r5, res1[..]);
    LineOfHalfwords(px, line0, fill0, w, w);
    ClearedHalfwords(line0, res0[..], w);
  }

  lemma ClearedHalfwords(before: seq<int>, now: seq<int>, k: nat)
    requires Halfwords(before) && Cleared(before, now, k)
    ensures Halfwords(now)
  {
  }

  lemma ArmStart(px: seq<int>, r0: seq<int>, r1: seq<int>, w: nat)
    requires w == |px| && w <= |r0| && w <= |r1|
    ensures ArmAt(px, r0, r1, w, 0, 0, r1) && Cleared(r0, r0, 0)
  {
  }

  lemma ArmEnd(px: seq<int>, r0: seq<int>, r1: seq<int>, w: nat, carry: int, line: seq<int>)
    requires ArmAt(px, r0, r1, w, w, carry, line)
    ensures w == |px| && w <= |r0|
    ensures line == Line(Gray16, HalfStep, w, false, px, r0, r1, w)
  {
  }
}
