/**
 * `ImagePalette::detectTransparency`: GD packs a true-colour pixel into one
 * integer as `alpha << 24 | red << 16 | green << 8 | blue`, with a 7-bit
 * alpha where 127 means fully transparent.
 */
module Transparency {

  /** The bit pattern of the 64-bit PHP integer that `imagecolorat` returns. */
  type ColorIndex = bv64

  /** The label `readPixelsGD` records for a transparent pixel. */
  const TransparentLabel: string := "transparent"

  /** `($rgba & 0x7F000000) >> 24`: the seven alpha bits, 24 to 30. */
  function Alpha(rgba: ColorIndex): (a: int)
    ensures 0 <= a <= 127
    ensures a == ((rgba >> 24) & 0x7F) as int
  {
    ((rgba & 0x7F00_0000) >> 24) as int
  }

  /**
   * `detectTransparency`: the alpha bits read 127 exactly, i.e. bits 24 to
   * 30 are all set; every other alpha, partial transparency included, is
   * treated as opaque.
   */
  function DetectTransparency(rgba: ColorIndex): (transparent: bool)
    ensures transparent <==> rgba & 0x7F00_0000 == 0x7F00_0000
  {
    Alpha(rgba) == 127
  }

  /** The index GD gives a true-colour pixel. */
  function TrueColor(alpha: bv64, red: bv64, green: bv64, blue: bv64): bv64
  {
    (alpha << 24) | (red << 16) | (green << 8) | blue
  }

  /**
   * On a packed pixel the test reads back the alpha it was given: only
   * alpha 127 is transparent.
   */
  lemma TrueColorAlpha(alpha: bv64, red: bv64, green: bv64, blue: bv64)
    requires alpha < 128 && red < 256 && green < 256 && blue < 256
    ensures Alpha(TrueColor(alpha, red, green, blue)) == alpha as int
    ensures DetectTransparency(TrueColor(alpha, red, green, blue)) <==> alpha == 127
  {
  }
}
