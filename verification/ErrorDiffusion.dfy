/** Error diffusion one pixel at a time: the specification that the unrolled dither loops refine.

    A pixel's value, the residual left for it by the row above and the carry of its left
    neighbour add up; the sum is clipped and quantised, and what is lost goes 7/16 to the
    right, 3/16, 5/16 and 1/16 to the three pixels below, each share rounded down. */
module ErrorDiffusion {

  datatype Quantizer =
    | Gray16                    // keep the high nibble
    | TwoLevel(threshold: int)  // black or white

  function Clip(g: int): int {
    if g > 255 then 255 else g
  }

  /** g & 0xf0: bits 4 to 7 of the two's complement of g. */
  function HighNibble(g: int): int {
    g % 0x100 / 0x10 * 0x10
  }

  /** The value that the level chosen for g stands for. */
  function Quantize(q: Quantizer, g: int): int {
    match q
    case Gray16 => HighNibble(g)
    case TwoLevel(threshold) => if g >= threshold then 240 else 0
  }

  /** (e * weight) >> 4: an arithmetic shift, so it rounds down for negative errors too. */
  function Share(e: int, weight: nat): int {
    e * weight / 16
  }

  /** What a store to a 16-bit signed variable keeps. */
  function Short(x: int): int {
    (x + 0x8000) % 0x1_0000 - 0x8000
  }

  /** What a halfword store of the ARM row keeps. */
  function Half(x: int): int {
    x % 0x1_0000
  }

  /** The quantisation error of pixel k; res is the residual line of the row above. */
  function Error(q: Quantizer, px: seq<int>, res: seq<int>, k: nat): int
    requires k < |px| && k < |res|
    decreases k, 2
  {
    Total(q, px, res, k) - Quantize(q, Total(q, px, res, k))
  }

  function Total(q: Quantizer, px: seq<int>, res: seq<int>, k: nat): int
    requires k < |px| && k < |res|
    decreases k, 1
  {
    Clip(px[k] + res[k] + Carry(q, px, res, k))
  }

  /** What the pixels to the left of k hand on to it. */
  function Carry(q: Quantizer, px: seq<int>, res: seq<int>, k: nat): int
    requires k <= |px| && k <= |res|
    decreases k, 0
  {
    if k == 0 then 0 else Share(Error(q, px, res, k - 1), 7)
  }

  /** The nibble emitted for pixel k. */
  function Level(q: Quantizer, px: seq<int>, res: seq<int>, k: nat): (level: nat)
    requires k < |px| && k < |res|
    ensures level < 16
  {
    Quantize(q, Total(q, px, res, k)) / 16
  }

  /** Where in the next residual line a pixel puts its shares, and how wide that line's cells are.
      `HalfStep` is what the ARM row does: its pointer into the next line advances by two cells
      for every four pixels. */
  datatype Layout = Straight | HalfStep

  function Pos(l: Layout, k: nat): nat {
    match l
    case Straight => k
    case HalfStep => 2 * (k / 4) + k % 4
  }

  function Cell(l: Layout, x: int): int {
    match l
    case Straight => Short(x)
    case HalfStep => Half(x)
  }

  function AddTo(l: Layout, line: seq<int>, m: int, v: int): seq<int> {
    if 0 <= m < |line| then line[m := Cell(l, line[m] + v)] else line
  }

  /** Pixel k of a row of w shares out its error. Pixel 0 has nothing to its lower left; the last pixel
      keeps its lower right share only when `spill` says so. */
  function Deposit(l: Layout, w: nat, spill: bool, line: seq<int>, k: nat, e: int): (r: seq<int>)
    ensures |r| == |line|
  {
    var p := Pos(l, k);
    var a := if k > 0 then AddTo(l, line, p - 1, Share(e, 3)) else line;
    var b := AddTo(l, a, p, Share(e, 5));
    if spill || k + 1 < w then AddTo(l, b, p + 1, Share(e, 1)) else b
  }

  /** The next residual line once the first k pixels have been processed. */
  function Line(q: Quantizer, l: Layout, w: nat, spill: bool, px: seq<int>, res: seq<int>, line0: seq<int>,
                k: nat): (r: seq<int>)
    requires k <= |px| && k <= |res|
    ensures |r| == |line0|
  {
    if k == 0 then line0
    else Deposit(l, w, spill, Line(q, l, w, spill, px, res, line0, k - 1), k - 1, Error(q, px, res, k - 1))
  }

  // ---- Packed pixels ----

  /** Byte k of a word, counting from the least significant. */
  function Byte(word: nat, k: nat): (b: nat)
    ensures b < 256
  {
    if k == 0 then word % 256 else Byte(word / 256, k - 1)
  }

  function Nibble(word: nat, k: nat): nat {
    if k == 0 then word % 16 else Nibble(word / 16, k - 1)
  }

  /** The w pixels stored four to a word from word `at` on. */
  function Pixels(src: seq<nat>, at: nat, w: nat): (px: seq<int>)
    requires at <= |src| && w <= 4 * (|src| - at)
    ensures |px| == w
  {
    seq(w, k requires 0 <= k < w => Byte(src[at + k / 4], k % 4))
  }

  lemma PixelAt(src: seq<nat>, at: nat, w: nat, j: nat, t: nat)
    requires at <= |src| && w <= 4 * (|src| - at)
    requires t < 4 && 4 * j + t < w
    ensures at + j < |src|
    ensures Pixels(src, at, w)[4 * j + t] == Byte(src[at + j], t)
  {
    assert (4 * j + t) / 4 == j && (4 * j + t) % 4 == t;
  }
}
