/** Packed 32-bit colours as stored in the frame buffer.

A pixel is one 32-bit word holding four 8-bit channels, alpha in the top
byte, then red, green and blue. The same word can be read as a whole
(`argb`) or channel by channel; `Pack` and `Unpack` are the two views, and
the lemmas below show they are mutually inverse, so nothing is lost by
switching between them.
 */
module Pixels {

  /** An 8-bit colour channel. */
  type byte = n: int | 0 <= n < 0x100

  /** A 32-bit packed pixel word. */
  type Pixel = n: int | 0 <= n < 0x1_0000_0000

  /** The channel view of a packed colour. */
  datatype Color = Color(a: byte, r: byte, g: byte, b: byte)

  /** Alpha-blends a source colour over a destination colour. The blend
      itself is floating-point code outside this model, so every operation
      that needs it takes it as a parameter. */
  type Compositor = (Color, Color) -> Color

  /** The argb word of a colour: the channels shifted into their bytes and
      or-ed together; the fields are disjoint, so the or is a sum. */
  function Pack(c: Color): Pixel
  {
    c.a * 0x100_0000 + c.r * 0x1_0000 + c.g * 0x100 + c.b
  }

  /** The channels of an argb word: shift right, then keep the low byte. */
  function Unpack(p: Pixel): Color
  {
    Color(p / 0x100_0000, p / 0x1_0000 % 0x100, p / 0x100 % 0x100, p % 0x100)
  }

  /** Reading the channels back from a packed word gives the channels that
      were packed. */
  lemma UnpackPack(c: Color)
    ensures Unpack(Pack(c)) == c
  {
    var p := Pack(c);
    var low := c.g * 0x100 + c.b;
    assert low < 0x1_0000;
    var mid := c.r * 0x1_0000 + low;
    assert mid < 0x100_0000;
    assert p == c.a * 0x100_0000 + mid;
    assert p / 0x100_0000 == c.a;
    assert p / 0x1_0000 == c.a * 0x100 + c.r;
    assert p / 0x100 == c.a * 0x1_0000 + c.r * 0x100 + c.g;
  }

  /** Packing the channels of a word gives the word back: every 32-bit
      value is some colour. */
  lemma PackUnpack(p: Pixel)
    ensures Pack(Unpack(p)) == p
  {
    var q0 := p / 0x100;
    var q1 := q0 / 0x100;
    var q2 := q1 / 0x100;
    assert p == q0 * 0x100 + p % 0x100;
    assert q0 == q1 * 0x100 + q0 % 0x100;
    assert q1 == q2 * 0x100 + q1 % 0x100;
    assert q1 == p / 0x1_0000;
    assert q2 == p / 0x100_0000;
  }
}
