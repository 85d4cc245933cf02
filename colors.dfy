/** The two colours the frame draws with and the `HEX_COLOR` macro, which splits
    a 0xRRGGBBAA word into the four channel arguments of the renderer. */
module Colors {

  /** A colour packed as 0xRRGGBBAA. */
  type Color = bv32

  const RedColor: Color := 0xFF0000FF
  const GreenColor: Color := 0x15FE15FF

  /** The four channels `HEX_COLOR` passes on, in its order. */
  datatype Rgba = Rgba(r: bv32, g: bv32, b: bv32, a: bv32)

  /** Packs four channels back into one word (the inverse of `HexColor`). */
  function Pack(c: Rgba): bv32
  {
    (c.r << 24) | (c.g << 16) | (c.b << 8) | c.a
  }

  /** `HEX_COLOR(hex)`: each channel is one byte of the word, most significant
      first, and the four channels recombine to the word. */
  function HexColor(hex: Color): (c: Rgba)
    ensures c.r <= 0xFF && c.g <= 0xFF && c.b <= 0xFF && c.a <= 0xFF
    ensures Pack(c) == hex
  {
    Rgba((hex >> 24) & 0xFF, (hex >> 16) & 0xFF, (hex >> 8) & 0xFF, hex & 0xFF)
  }

  /** Splitting a packed word of byte-sized channels gives the channels back. */
  lemma HexColorOfPack(c: Rgba)
    requires c.r <= 0xFF && c.g <= 0xFF && c.b <= 0xFF && c.a <= 0xFF
    ensures HexColor(Pack(c)) == c
  {
  }

  /** The channels of the two colours the frame draws with. */
  lemma DrawColorChannels()
    ensures HexColor(RedColor) == Rgba(0xFF, 0x00, 0x00, 0xFF)
    ensures HexColor(GreenColor) == Rgba(0x15, 0xFE, 0x15, 0xFF)
  {
  }
}
