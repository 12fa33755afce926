/** The two residual lines of a C dither row (hwcomposer.cpp): buffers of shorts updated in place. */
module DitherLines {
  import opened ErrorDiffusion

  /** line[m] += v on a line of shorts. */
  method AddShort(line: array<int>, m: nat, v: int)
    requires m < line.Length
    modifies line
    ensures line[..] == AddTo(Straight, old(line[..]), m, v)
  {
    line[m] := Short(line[m] + v);
  }

  /** line[m - 1] += v1; line[m] += v2; line[m + 1] += v3. */
  method AddThree(line: array<int>, m: nat, v1: int, v2: int, v3: int)
    requires 0 < m && m + 1 < line.Length
    modifies line
    ensures line[..] == AddTo(Straight, AddTo(Straight, AddTo(Straight, old(line[..]), m - 1, v1), m, v2), m + 1, v3)
  {
    line[m - 1] := Short(line[m - 1] + v1);
    line[m] := Short(line[m] + v2);
    line[m + 1] := Short(line[m + 1] + v3);
  }

  method ClearCell(line: array<int>, m: nat)
    requires m < line.Length
    modifies line
    ensures line[..] == old(line[..])[m := 0]
  {
    line[m] := 0;
  }

  /** The first k cells cleared, the others as they were. */
  ghost predicate Cleared(before: seq<int>, now: seq<int>, k: nat) {
    && |now| == |before|
    && forall m :: 0 <= m < |now| ==> now[m] == if m < k then 0 else before[m]
  }

  /** The row after its first k pixels: the carry, the next line and the line being consumed. */
  ghost predicate RowAt(q: Quantizer, spill: bool, px: seq<int>, r0: seq<int>, r1: seq<int>, w: nat, k: nat, v0: int,
                        line: seq<int>, cells: seq<int>) {
    && k <= w == |px| && w <= |r0| && w <= |r1|
    && v0 == Carry(q, px, r0, k)
    && line == Line(q, Straight, w, spill, px, r0, r1, k)
    && Cleared(r0, cells, k)
  }

  lemma RowStart(q: Quantizer, spill: bool, px: seq<int>, r0: seq<int>, r1: seq<int>, w: nat)
    requires w == |px| && w <= |r0| && w <= |r1|
    ensures RowAt(q, spill, px, r0, r1, w, 0, 0, r1, r0)
  {
  }

  lemma RowEnd(q: Quantizer, spill: bool, px: seq<int>, r0: seq<int>, r1: seq<int>, w: nat, v0: int, line: seq<int>,
               cells: seq<int>)
    requires RowAt(q, spill, px, r0, r1, w, w, v0, line, cells)
    ensures w == |px| && w <= |r0|
    ensures line == Line(q, Straight, w, spill, px, r0, r1, w)
    ensures Cleared(r0, cells, w)
  {
  }

  /** The three additions of one block, without those that would leave the row. */
  function Spread(spill: bool, line: seq<int>, w: nat, k: nat, v1: int, v2: int, v3: int): seq<int> {
    var a := if k > 0 then AddTo(Straight, line, k - 1, v1) else line;
    var b := AddTo(Straight, a, k, v2);
    if spill || k + 1 < w then AddTo(Straight, b, k + 1, v3) else b
  }

  /** One block of the unrolled loop is one pixel of the specification. */
  lemma PixelStep(q: Quantizer, spill: bool, px: seq<int>, r0: seq<int>, r1: seq<int>, w: nat, k: nat, v0: int,
                  line: seq<int>, cells: seq<int>)
    requires RowAt(q, spill, px, r0, r1, w, k, v0, line, cells) && k < w
    ensures |cells| == |r0| && |line| == |r1| && w <= |r0| && w <= |r1| && w == |px|
    ensures var g := Clip(px[k] + cells[k] + v0);
            var e := g - Quantize(q, g);
            && RowAt(q, spill, px, r0, r1, w, k + 1, Share(e, 7),
                     Spread(spill, line, w, k, Share(e, 3), Share(e, 5), Share(e, 1)), cells[k := 0])
            && Quantize(q, g) == 16 * Level(q, px, r0, k)
  {
    PixelValues(q, px, r0, w, k, v0, cells[k]);
    LineStep(q, spill, px, r0, r1, w, k);
    ClearedNext(r0, cells, k);
    hide Total, Error, Carry, Clip, AddTo, Quantize, Level, Line, Share, Spread, Cleared;
  }

  lemma LineStep(q: Quantizer, spill: bool, px: seq<int>, r0: seq<int>, r1: seq<int>, w: nat, k: nat)
    requires k < w <= |px| && w <= |r0|
    ensures var line := Line(q, Straight, w, spill, px, r0, r1, k); var e := Error(q, px, r0, k);
            Line(q, Straight, w, spill, px, r0, r1, k + 1)
            == Spread(spill, line, w, k, Share(e, 3), Share(e, 5), Share(e, 1))
  {
    hide Error, AddTo, Share;
  }

  lemma ClearedNext(before: seq<int>, now: seq<int>, k: nat)
    requires Cleared(before, now, k) && k < |now|
    ensures Cleared(before, now[k := 0], k + 1)
  {
  }

  lemma PixelValues(q: Quantizer, px: seq<int>, r0: seq<int>, w: nat, k: nat, v0: int, cell: int)
    requires k < w <= |px| && w <= |r0| && cell == r0[k] && v0 == Carry(q, px, r0, k)
    ensures var g := Clip(px[k] + cell + v0);
            var e := g - Quantize(q, g);
            && e == Error(q, px, r0, k) && Carry(q, px, r0, k + 1) == Share(e, 7)
            && Quantize(q, g) == 16 * Level(q, px, r0, k)
  {
    var g := Clip(px[k] + cell + v0);
    assert g == Total(q, px, r0, k);
  }
}
