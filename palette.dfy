/**
 * The colour mapper: 256 pixel words, one per stored byte value, each packing
 * an opaque colour as little-endian RGBA (red in the low byte, alpha in the
 * high byte), the layout of a canvas ImageData buffer read as 32-bit words.
 */
module Palette {

  /** The red, green and blue bytes a colour scale yields for one input. */
  datatype Rgb = Rgb(r: bv8, g: bv8, b: bv8)

  /** (255 << 24) | (b << 16) | (g << 8) | r, as a 32-bit pattern. */
  function PackColor(c: Rgb): bv32
  {
    (0xFF << 24) | ((c.b as bv32) << 16) | ((c.g as bv32) << 8) | (c.r as bv32)
  }

  /** The byte of a pixel word at bit position `shift`. */
  function ByteAt(p: bv32, shift: bv32): bv8
    requires shift <= 24
  {
    ((p >> shift) & 0xFF) as bv8
  }

  /** Reads the colour back out of a pixel word. */
  function UnpackColor(p: bv32): Rgb
  {
    Rgb(ByteAt(p, 0), ByteAt(p, 8), ByteAt(p, 16))
  }

  /**
   * Every packed entry is opaque (alpha 255), and red, green and blue are
   * recovered from bits 0-7, 8-15 and 16-23.
   */
  lemma PackColorChannels(c: Rgb)
    ensures ByteAt(PackColor(c), 24) == 0xFF
    ensures UnpackColor(PackColor(c)) == c
  {
  }

  /**
   * Bit 31 is set, so JavaScript's `|`, which yields a signed 32-bit
   * integer, leaves a negative number in the palette array; storing it into
   * the Uint32Array raster keeps the same 32 bits.
   */
  lemma PackColorHighBit(c: Rgb)
    ensures PackColor(c) & 0x8000_0000 == 0x8000_0000
  {
  }

  /** Fills the 256-entry palette from a colour scale over 0 .. 255. */
  method BuildPalette(scale: int -> Rgb) returns (colors: array<bv32>)
    ensures fresh(colors) && colors.Length == 256
    ensures forall i :: 0 <= i < 256 ==> colors[i] == PackColor(scale(i))
  {
    colors := new bv32[256];
    for i := 0 to 256
      invariant forall k :: 0 <= k < i ==> colors[k] == PackColor(scale(k))
    {
      colors[i] := PackColor(scale(i));
    }
  }
}
