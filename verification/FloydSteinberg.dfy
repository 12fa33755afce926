/** Error diffusion as the textbooks have it, told from the receiving pixel: the reference that the dither loops are
    held against. It shares nothing with the definitions that those loops are proved from. */
module FloydSteinberg {

  /** Sixteen levels of grey, or black and white only. */
  datatype Shades = Sixteen | Two

  /** What the level chosen for v stands for. */
  function Kept(s: Shades, v: int): int {
    match s
    case Sixteen => v / 16 * 16
    case Two => if v < 128 then 0 else 240
  }

  /** The value of pixel k with what its left neighbour and the row above have left for it; white is the most. */
  function Value(s: Shades, px: seq<int>, above: seq<int>, k: nat): int
    requires k < |px| && k < |above|
    decreases k, 0
  {
    var t := px[k] + above[k] + if k == 0 then 0 else 7 * Loss(s, px, above, k - 1) / 16;
    if t > 255 then 255 else t
  }

  /** What is lost by choosing a level. */
  function Loss(s: Shades, px: seq<int>, above: seq<int>, k: nat): int
    requires k < |px| && k < |above|
    decreases k, 1
  {
    Value(s, px, above, k) - Kept(s, Value(s, px, above, k))
  }

  /** What a row hands down to the pixel below its pixel m. */
  function Handed(s: Shades, px: seq<int>, above: seq<int>, m: nat): int
    requires m < |px| && |px| <= |above|
  {
    5 * Loss(s, px, above, m) / 16
    + (if m + 1 < |px| then 3 * Loss(s, px, above, m + 1) / 16 else 0)
    + (if m > 0 then Loss(s, px, above, m - 1) / 16 else 0)
  }

  /** As a signed number of sixteen bits. */
  function Signed16(x: int): int {
    if x % 65536 < 32768 then x % 65536 else x % 65536 - 65536
  }

  /** What row r of an image of rows w pixels wide finds above it. */
  function Above(s: Shades, rows: seq<seq<int>>, w: nat, r: nat): (above: seq<int>)
    requires r <= |rows| && forall i :: 0 <= i < |rows| ==> |rows[i]| == w
    ensures |above| == w
  {
    if r == 0 then seq(w, _ => 0)
    else
      seq(w, m requires 0 <= m < w => Signed16(Handed(s, rows[r - 1], Above(s, rows, w, r - 1), m)))
  }

  /** The level of pixel k of row r. */
  function Shade(s: Shades, rows: seq<seq<int>>, w: nat, r: nat, k: nat): int
    requires r < |rows| && k < w && forall i :: 0 <= i < |rows| ==> |rows[i]| == w
  {
    Kept(s, Value(s, rows[r], Above(s, rows, w, r), k)) / 16
  }

  /** What the first k pixels of a row of w add to cell m when the pointer into the next line moves by two cells for
      every four pixels. */
  function HalfStepped(px: seq<int>, above: seq<int>, w: nat, m: int, k: nat): int
    requires k <= |px| && k <= |above|
  {
    if k == 0 then 0
    else
      var at := (k - 1) / 4 * 2 + (k - 1) % 4;
      var e := Loss(Sixteen, px, above, k - 1);
      HalfStepped(px, above, w, m, k - 1)
      + (if m == at then 5 * e / 16 else 0)
      + (if m == at - 1 && k > 1 then 3 * e / 16 else 0)
      + (if m == at + 1 && k < w then e / 16 else 0)
  }

  // ---- Packed pixels ----

  /** Byte j of a word, the least significant first. */
  function Octet(word: nat, j: nat): nat {
    if j == 0 then word % 256 else Octet(word / 256, j - 1)
  }

  /** Hexadecimal digit j of a word, the least significant first. */
  function HexDigit(word: nat, j: nat): nat {
    if j == 0 then word % 16 else HexDigit(word / 16, j - 1)
  }

  /** Word j of row r. */
  function WordAt(r: nat, wordsInRow: nat, j: nat): nat {
    r * wordsInRow + j
  }

  /** Pixel k of row r of an image w pixels wide, four to a word. */
  function PackedPixel(src: seq<nat>, w: nat, r: nat, k: nat): int {
    var m := WordAt(r, w / 4, k / 4);
    if m < |src| then Octet(src[m], k % 4) else 0
  }

  function Image(src: seq<nat>, w: nat, h: nat): (rows: seq<seq<int>>)
    ensures |rows| == h && forall r :: 0 <= r < h ==> |rows[r]| == w
  {
    seq(h, r requires 0 <= r < h => seq(w, k requires 0 <= k < w => PackedPixel(src, w, r, k)))
  }
}
