/** Pixel colours and the radius fade of a ripple ring. */
module Pixels {

  /** One 8-bit colour channel (a `Uint8`). */
  newtype byte = x: int | 0 <= x < 256

  /** A pixel as its three channels; the packing done by `SDL_MapRGB` is not modelled. */
  datatype Rgb = Rgb(r: byte, g: byte, b: byte)

  /** The background colour written in erase mode. */
  const Black: Rgb := Rgb(0, 0, 0)

  /** The radius at which a ring has faded out completely (the `200.0` of the fade). */
  const MaxRadius: int := 200

  /** Brightest channel value, the fade's value at radius 0. */
  const MaxBrightness: int := 255

  /** The `blackOrWhite` flag value that selects draw mode; any other value erases. */
  const DrawFlag: int := 1

  /** The `blackOrWhite` flag value the ripple passes to erase. */
  const EraseFlag: int := 0

  /** A grey with all three channels equal to `v`. */
  function Grey(v: byte): Rgb
  {
    Rgb(v, v, v)
  }

  /**
   * The channel value of a ring drawn at `radius`: `255 - 255 * (radius / 200.0)`
   * converted to `Uint8`, i.e. truncated toward zero. The conversion is
   * defined only while the value lies in [0, 256), which holds exactly for
   * radii 0..200, so that is what the caller must supply.
   */
  function Fade(radius: int): (v: int)
    requires 0 <= radius <= MaxRadius
    ensures 0 <= v <= MaxBrightness
    // v is the truncation of the exact value 255 - 255 * radius / 200:
    // v <= exact < v + 1, written without division.
    ensures MaxRadius * v <= MaxBrightness * (MaxRadius - radius) < MaxRadius * (v + 1)
  {
    MaxBrightness * (MaxRadius - radius) / MaxRadius
  }

  /** The fade starts at full brightness and ends at black. */
  lemma FadeEnds()
    ensures Fade(0) == MaxBrightness
    ensures Fade(MaxRadius - 1) == 1
    ensures Fade(MaxRadius) == 0
  {
  }

  /** The fade never gets brighter as the ring grows. */
  lemma {:induction false} FadeMonotone(r1: int, r2: int)
    requires 0 <= r1 <= r2 <= MaxRadius
    ensures Fade(r2) <= Fade(r1)
  {
    var v1, v2 := Fade(r1), Fade(r2);
    // From the truncation bounds: 200 * v2 <= 255 * (200 - r2) <= 255 * (200 - r1) < 200 * (v1 + 1).
    assert MaxBrightness * (MaxRadius - r2) <= MaxBrightness * (MaxRadius - r1);
    assert MaxRadius * v2 < MaxRadius * (v1 + 1);
  }

  /**
   * The colour `drawCircle` writes: a grey that fades with the radius in draw
   * mode (`blackOrWhite == 1`), black for every other flag value.
   */
  function Colour(blackOrWhite: int, radius: int): (c: Rgb)
    requires blackOrWhite == DrawFlag ==> 0 <= radius <= MaxRadius
    ensures c.r == c.g == c.b
    ensures blackOrWhite != DrawFlag ==> c == Black
    ensures blackOrWhite == DrawFlag ==> c.r as int == Fade(radius)
  {
    if blackOrWhite == DrawFlag then Grey(Fade(radius) as byte) else Black
  }

  /** Draw-mode colours darken as the radius grows, starting from white. */
  lemma {:induction false} ColourDarkens(r1: int, r2: int)
    requires 0 <= r1 <= r2 <= MaxRadius
    ensures Colour(DrawFlag, r2).r <= Colour(DrawFlag, r1).r
    ensures Colour(DrawFlag, 0) == Grey(255)
  {
    FadeMonotone(r1, r2);
    FadeEnds();
  }

  /** Erase mode writes black at every radius, including the radius -1 of a ripple's first frame. */
  lemma EraseIsBlack(radius: int)
    ensures Colour(EraseFlag, radius) == Black
  {
  }
}
