/** What the colour filter panels show, told nibble by nibble: the reference for the two mosaics. It shares nothing with
    the definitions that their loops are proved from. */
module ColourFilter {

  /** Bits 4 to 7, 20 to 23 or 12 to 15 of a pixel: the high halves of red, blue and green. */
  function Field(p: bv32, k: nat): bv32 {
    if k % 3 == 0 then (p >> 4) & 0xf else if k % 3 == 1 then (p >> 20) & 0xf else (p >> 12) & 0xf
  }

  function Mean(a: bv32, b: bv32, c: bv32, d: bv32, k: nat): bv32 {
    (Field(a, k) + Field(b, k) + Field(c, k) + Field(d, k)) >> 2
  }

  /** Where the upper left pixel of a nibble's block of four is. */
  function BlockAt(width: nat, x: nat, y: nat): nat {
    2 * (y / 2) * width + 2 * (x / 2)
  }

  /** Nibble (x, y) of the mosaic at full resolution: one channel of four pixels, two and two below one another. */
  function BlockNibble(src: seq<bv32>, width: nat, x: nat, y: nat): bv32 {
    var p := BlockAt(width, x, y);
    if p + width + 1 < |src| then Mean(src[p], src[p + 1], src[p + width], src[p + width + 1], x + 2 * y) else 0
  }

  /** The byte that holds it; a pair of rows takes the width, its second row starts half way. */
  function BlockByte(width: nat, x: nat, y: nat): nat {
    y / 2 * width + y % 2 * (width / 2) + x / 2
  }

  /** Where the pixel shown by nibble (x, y) of the picture three times as wide and high is. */
  function PixelAt(width: nat, x: nat, y: nat): nat {
    y / 3 * width + x / 3
  }

  /** That nibble: one channel of the one pixel. Here the channels come in the order green, blue, red. */
  function PixelNibble(src: seq<bv32>, width: nat, x: nat, y: nat): bv32 {
    var p, k := PixelAt(width, x, y), (x / 3 + y % 3) % 3;
    if p < |src| then Field(src[p], if k == 0 then 2 else if k == 1 then 1 else 0) else 0
  }

  /** The byte that holds it; three rows take one and a half times the virtual width. */
  function PixelByte(virWidth: nat, x: nat, y: nat): nat {
    y / 3 * 3 * virWidth / 2
    + (if y % 3 == 0 then 0 else if y % 3 == 1 then virWidth / 2 else virWidth)
    + x / 2
  }

  /** The low half of a byte for even columns, the high half for odd ones. */
  function HalfOf(byte: bv8, x: nat): bv32 {
    if x % 2 == 0 then byte as bv32 & 0xf else byte as bv32 >> 4
  }
}
