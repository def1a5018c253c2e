/**
 * The clipped ring rasterizer: a row-major framebuffer and `drawCircle`,
 * which writes one colour at up to 360 ring samples around a centre.
 */
module Raster {
  import opened Pixels

  /** Number of ring samples `drawCircle` takes (one per loop step). */
  const Samples: nat := 360

  /** The integer offset of one ring sample from the centre. */
  datatype Offset = Offset(dx: int, dy: int)

  /** Whether pixel (px, py) lies on a `w` by `h` surface. */
  predicate InBounds(w: int, h: int, px: int, py: int)
  {
    0 <= px < w && 0 <= py < h
  }

  /** The row-major position of pixel (px, py) on a surface `w` pixels wide. */
  function Index(w: int, px: int, py: int): int
  {
    py * w + px
  }

  /** Every in-bounds pixel has a position inside the `w * h` buffer. */
  lemma IndexInRange(w: int, h: int, px: int, py: int)
    requires InBounds(w, h, px, py)
    ensures 0 <= Index(w, px, py) < w * h
  {
    assert py * w <= (h - 1) * w by {
      assert (h - 1) * w - py * w == (h - 1 - py) * w;
    }
    assert (h - 1) * w + w == h * w;
  }

  /** A positive multiple of a positive width is at least that width. */
  lemma MulAtLeast(w: int, d: int)
    requires w > 0 && d > 0
    ensures w * d >= w
  {
    assert w * d - w == w * (d - 1);
    assert w * (d - 1) >= 0;
  }

  /** Euclidean division by a positive width has one quotient and one remainder. */
  lemma DivModUnique(w: int, q: int, r: int)
    requires 0 <= r < w
    ensures (w * q + r) / w == q && (w * q + r) % w == r
  {
    var k := w * q + r;
    var a, b := k / w, k % w;
    assert k == w * a + b && 0 <= b < w;
    if a > q {
      MulAtLeast(w, a - q);
    } else if a < q {
      MulAtLeast(w, q - a);
    }
  }

  /** The position of an in-bounds pixel determines its coordinates: no two pixels share a slot. */
  lemma IndexCoordinates(w: int, h: int, px: int, py: int)
    requires InBounds(w, h, px, py)
    ensures Index(w, px, py) / w == py && Index(w, px, py) % w == px
  {
    assert Index(w, px, py) == w * py + px;
    DivModUnique(w, py, px);
  }

  /** Sample `o` around centre (x, y) lands on the surface at position `k`. */
  predicate SampleHits(w: int, h: int, x: int, y: int, o: Offset, k: int)
  {
    InBounds(w, h, x + o.dx, y + o.dy) && Index(w, x + o.dx, y + o.dy) == k
  }

  /** Some sample of `offsets` around (x, y) lands on the surface at position `k`. */
  ghost predicate Covers(w: int, h: int, x: int, y: int, offsets: seq<Offset>, k: int)
  {
    exists j :: 0 <= j < |offsets| && SampleHits(w, h, x, y, offsets[j], k)
  }

  /**
   * The buffer positions `drawCircle` writes, in order: one per sample that
   * lands on the surface; samples outside it are skipped.
   */
  function Writes(w: nat, h: nat, x: int, y: int, offsets: seq<Offset>): (ws: seq<int>)
    ensures |ws| <= |offsets|
    ensures forall i :: 0 <= i < |ws| ==> 0 <= ws[i] < w * h
    decreases |offsets|
  {
    if offsets == [] then []
    else
      var rest := Writes(w, h, x, y, offsets[..|offsets| - 1]);
      var o := offsets[|offsets| - 1];
      if InBounds(w, h, x + o.dx, y + o.dy) then
        IndexInRange(w, h, x + o.dx, y + o.dy);
        rest + [Index(w, x + o.dx, y + o.dy)]
      else rest
  }

  /** A position is written exactly when some sample lands on it. */
  lemma {:induction false} WritesCovers(w: nat, h: nat, x: int, y: int, offsets: seq<Offset>, k: int)
    ensures k in Writes(w, h, x, y, offsets) <==> Covers(w, h, x, y, offsets, k)
    decreases |offsets|
  {
    if offsets != [] {
      var n := |offsets| - 1;
      var init := offsets[..n];
      WritesCovers(w, h, x, y, init, k);
      if Covers(w, h, x, y, init, k) {
        var j :| 0 <= j < |init| && SampleHits(w, h, x, y, init[j], k);
        assert offsets[j] == init[j];
      }
      if Covers(w, h, x, y, offsets, k) {
        var j :| 0 <= j < |offsets| && SampleHits(w, h, x, y, offsets[j], k);
        if j < n {
          assert init[j] == offsets[j];
        }
      }
    }
  }

  /** Every sample lands on the surface exactly when none is skipped. */
  lemma {:induction false} WritesAllInBounds(w: nat, h: nat, x: int, y: int, offsets: seq<Offset>)
    ensures |Writes(w, h, x, y, offsets)| == |offsets| <==>
            forall j :: 0 <= j < |offsets| ==> InBounds(w, h, x + offsets[j].dx, y + offsets[j].dy)
    decreases |offsets|
  {
    if offsets != [] {
      var n := |offsets| - 1;
      var init := offsets[..n];
      WritesAllInBounds(w, h, x, y, init);
      assert forall j :: 0 <= j < n ==> init[j] == offsets[j];
    }
  }

  /** `s` with colour `c` written at each position of `ws`, in order. */
  function Paint(s: seq<Rgb>, ws: seq<int>, c: Rgb): (t: seq<Rgb>)
    requires forall i :: 0 <= i < |ws| ==> 0 <= ws[i] < |s|
    ensures |t| == |s|
    decreases |ws|
  {
    if ws == [] then s
    else Paint(s, ws[..|ws| - 1], c)[ws[|ws| - 1] := c]
  }

  /** Painting sets exactly the listed positions to `c` and leaves every other one alone. */
  lemma {:induction false} PaintAt(s: seq<Rgb>, ws: seq<int>, c: Rgb, k: int)
    requires forall i :: 0 <= i < |ws| ==> 0 <= ws[i] < |s|
    requires 0 <= k < |s|
    ensures Paint(s, ws, c)[k] == if k in ws then c else s[k]
    decreases |ws|
  {
    if ws != [] {
      var init := ws[..|ws| - 1];
      PaintAt(s, init, c, k);
      assert ws == init + [ws[|ws| - 1]];
    }
  }

  /**
   * The buffer after `drawCircle(x, y, radius, blackOrWhite)` with ring
   * samples `offsets` on a `w` by `h` surface whose pixels were `s`.
   */
  function Rasterize(s: seq<Rgb>, w: nat, h: nat, x: int, y: int, radius: int,
                     blackOrWhite: int, offsets: seq<Offset>): (t: seq<Rgb>)
    requires |s| == w * h
    requires blackOrWhite == DrawFlag ==> 0 <= radius <= MaxRadius
    ensures |t| == |s|
  {
    Paint(s, Writes(w, h, x, y, offsets), Colour(blackOrWhite, radius))
  }

  /**
   * What one `drawCircle` call does to pixel `k`: a pixel some in-bounds
   * sample hits takes the call's colour, every other pixel keeps its value.
   */
  lemma RasterizeAt(s: seq<Rgb>, w: nat, h: nat, x: int, y: int, radius: int,
                    blackOrWhite: int, offsets: seq<Offset>, k: int)
    requires |s| == w * h
    requires blackOrWhite == DrawFlag ==> 0 <= radius <= MaxRadius
    requires 0 <= k < |s|
    ensures Rasterize(s, w, h, x, y, radius, blackOrWhite, offsets)[k] ==
            if Covers(w, h, x, y, offsets, k) then Colour(blackOrWhite, radius) else s[k]
  {
    PaintAt(s, Writes(w, h, x, y, offsets), Colour(blackOrWhite, radius), k);
    WritesCovers(w, h, x, y, offsets, k);
  }

  /** An erase call blackens every pixel its samples hit, at any radius (`RasterizeAt` leaves the rest unchanged). */
  lemma EraseBlackens(s: seq<Rgb>, w: nat, h: nat, x: int, y: int, radius: int,
                      offsets: seq<Offset>, k: int)
    requires |s| == w * h
    requires 0 <= k < |s|
    requires Covers(w, h, x, y, offsets, k)
    ensures Rasterize(s, w, h, x, y, radius, EraseFlag, offsets)[k] == Black
  {
    RasterizeAt(s, w, h, x, y, radius, EraseFlag, offsets, k);
  }

  /** A surface: `width` by `height` pixels stored row by row in `pixels`. */
  class Framebuffer {
    const width: nat
    const height: nat
    const pixels: array<Rgb>

    ghost predicate Valid()
      reads this
    {
      pixels.Length == width * height
    }

    /** A fresh all-black surface of the given size. */
    constructor (w: nat, h: nat)
      ensures Valid() && fresh(pixels)
      ensures width == w && height == h
      ensures forall k :: 0 <= k < pixels.Length ==> pixels[k] == Black
    {
      width, height := w, h;
      pixels := new Rgb[w * h](_ => Black);
    }

    /**
     * `drawCircle`: for each of the 360 samples, skip it when it falls off
     * the surface, otherwise write the mode's colour at its position.
     */
    method DrawCircle(x: int, y: int, radius: int, blackOrWhite: int, offsets: seq<Offset>)
      requires Valid()
      requires |offsets| == Samples
      requires blackOrWhite == DrawFlag ==> 0 <= radius <= MaxRadius
      modifies pixels
      ensures pixels[..] == Rasterize(old(pixels[..]), width, height, x, y, radius, blackOrWhite, offsets)
    {
      ghost var before := pixels[..];
      for i := 0 to Samples
        invariant pixels[..] == Paint(before, Writes(width, height, x, y, offsets[..i]),
                                      Colour(blackOrWhite, radius))
      {
        assert offsets[..i + 1][..i] == offsets[..i];
        var dx, dy := offsets[i].dx, offsets[i].dy;
        if x + dx < 0 || x + dx >= width || y + dy < 0 || y + dy >= height {
          continue;
        }
        var c := Colour(blackOrWhite, radius);
        IndexInRange(width, height, x + dx, y + dy);
        ghost var ws := Writes(width, height, x, y, offsets[..i]);
        assert (ws + [(y + dy) * width + (x + dx)])[..|ws|] == ws;
        pixels[(y + dy) * width + (x + dx)] := c;
      }
      assert offsets[..Samples] == offsets;
    }
  }
}
