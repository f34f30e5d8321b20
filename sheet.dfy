/** The sprite sheet as the three archived backends read it: an RGBA image
    addressed by (x, y), cut into 124 x 93 cells. */
module Sheet {

  const FrameW: nat := 124
  const FrameH: nat := 93
  /** Pixels whose alpha is at most this are not copied. */
  const AlphaThreshold: bv8 := 10

  datatype Rgba = Rgba(r: bv8, g: bv8, b: bv8, a: bv8)

  /** `pixels[y][x]` is the pixel at column x of row y. */
  datatype Image = Image(width: nat, height: nat, pixels: seq<seq<Rgba>>)

  ghost predicate WellFormed(img: Image)
  {
    && |img.pixels| == img.height
    && forall y :: 0 <= y < |img.pixels| ==> |img.pixels[y]| == img.width
  }

  /** `get_pixel`, which panics outside the image. */
  function PixelAt(img: Image, x: nat, y: nat): Rgba
    requires WellFormed(img) && x < img.width && y < img.height
  {
    img.pixels[y][x]
  }

  predicate Visible(p: Rgba)
  {
    p.a > AlphaThreshold
  }

  /** Red in bits 16-23, green in bits 8-15, blue in bits 0-7 of a 32-bit
      word whose top byte stays zero (0x00RRGGBB). */
  function Pack(p: Rgba): (w: bv32)
    ensures w & 0xFF00_0000 == 0
    ensures w <= 0xFF_FFFF
  {
    ((p.r as bv32) << 16) | ((p.g as bv32) << 8) | (p.b as bv32)
  }

  /** The red, green and blue bytes of a 0x00RRGGBB word. */
  function Unpack(w: bv32): (rgb: (bv8, bv8, bv8))
  {
    (((w >> 16) & 0xFF) as bv8, ((w >> 8) & 0xFF) as bv8, (w & 0xFF) as bv8)
  }

  /** Packing loses only the alpha byte. */
  lemma PackRoundTrip(p: Rgba)
    ensures Unpack(Pack(p)) == (p.r, p.g, p.b)
  {
  }

  /** Byte `k` (0 = red .. 3 = alpha) of the 4-byte RGBA layout. */
  function Channel(p: Rgba, k: nat): bv8
    requires k < 4
  {
    if k == 0 then p.r else if k == 1 then p.g else if k == 2 then p.b else p.a
  }
}
