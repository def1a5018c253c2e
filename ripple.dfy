/**
 * One ripple's animation (`drawRipple`): 200 frames, each erasing the ring
 * of the previous radius and drawing the ring of the current one.
 */
module Ripple {
  import opened Pixels
  import opened Raster

  /** Number of frames a ripple runs; frame `i` shows the ring of radius `i`. */
  const Frames: nat := 200

  /** One `drawCircle` call of a ripple: its `blackOrWhite` flag and its radius. */
  datatype Call = Call(blackOrWhite: int, radius: int)

  /** A call whose colour is defined: draw mode needs a radius in 0..200. */
  predicate CallOk(c: Call)
  {
    c.blackOrWhite == DrawFlag ==> 0 <= c.radius <= MaxRadius
  }

  /** The calls of the first `n` frames, in order: erase at `i - 1`, then draw at `i`. */
  function Schedule(n: nat): (calls: seq<Call>)
    ensures |calls| == 2 * n
    decreases n
  {
    if n == 0 then []
    else Schedule(n - 1) + [Call(EraseFlag, n - 2), Call(DrawFlag, n - 1)]
  }

  /** Frame `i` of the schedule is exactly (erase, i - 1) followed by (draw, i). */
  lemma {:induction false} ScheduleFrame(n: nat, i: nat)
    requires i < n
    ensures Schedule(n)[2 * i] == Call(EraseFlag, i - 1)
    ensures Schedule(n)[2 * i + 1] == Call(DrawFlag, i)
    decreases n
  {
    if i < n - 1 {
      ScheduleFrame(n - 1, i);
    }
  }

  /** Every call of frame `i` uses radius `i` or `i - 1`, so no ring reaches radius `n`. */
  lemma {:induction false} ScheduleRadii(n: nat)
    ensures forall k :: 0 <= k < |Schedule(n)| ==>
              -1 <= Schedule(n)[k].radius < n &&
              (Schedule(n)[k].blackOrWhite == DrawFlag <==> k % 2 == 1) &&
              Schedule(n)[k].radius == k / 2 - (if k % 2 == 0 then 1 else 0)
    decreases n
  {
    forall k | 0 <= k < |Schedule(n)|
      ensures -1 <= Schedule(n)[k].radius < n
      ensures Schedule(n)[k].blackOrWhite == DrawFlag <==> k % 2 == 1
      ensures Schedule(n)[k].radius == k / 2 - (if k % 2 == 0 then 1 else 0)
    {
      ScheduleFrame(n, k / 2);
    }
  }

  /** Every call of a schedule of at most 200 frames has a defined colour. */
  lemma {:induction false} ScheduleOk(n: nat)
    requires n <= Frames
    ensures forall c :: c in Schedule(n) ==> CallOk(c)
  {
    ScheduleRadii(n);
    forall c | c in Schedule(n) ensures CallOk(c) {
      var k :| 0 <= k < |Schedule(n)| && Schedule(n)[k] == c;
    }
  }

  /** A whole ripple: 400 calls, the draw at radius 199 last, and no draw at 200 or more. */
  lemma RippleSchedule()
    ensures |Schedule(Frames)| == 2 * Frames
    ensures Schedule(Frames)[|Schedule(Frames)| - 1] == Call(DrawFlag, Frames - 1)
    ensures Schedule(Frames)[0] == Call(EraseFlag, -1)
    ensures forall c :: c in Schedule(Frames) && c.blackOrWhite == DrawFlag ==> 0 <= c.radius < Frames
  {
    ScheduleFrame(Frames, Frames - 1);
    ScheduleFrame(Frames, 0);
    ScheduleRadii(Frames);
    forall c | c in Schedule(Frames) && c.blackOrWhite == DrawFlag ensures 0 <= c.radius < Frames {
      var k :| 0 <= k < |Schedule(Frames)| && Schedule(Frames)[k] == c;
    }
  }

  /** The buffer after running `calls` in order around centre (x, y), starting from `s`. */
  function Replay(s: seq<Rgb>, w: nat, h: nat, x: int, y: int,
                  ring: int -> seq<Offset>, calls: seq<Call>): (t: seq<Rgb>)
    requires |s| == w * h
    requires forall c :: c in calls ==> CallOk(c)
    ensures |t| == |s|
    decreases |calls|
  {
    if calls == [] then s
    else
      var last := calls[|calls| - 1];
      assert last in calls && CallOk(last);
      Rasterize(Replay(s, w, h, x, y, ring, calls[..|calls| - 1]), w, h, x, y,
                last.radius, last.blackOrWhite, ring(last.radius))
  }

  /** Some call of `calls` has a ring sample that lands on position `k`. */
  ghost predicate Touched(w: nat, h: nat, x: int, y: int, ring: int -> seq<Offset>,
                          calls: seq<Call>, k: int)
  {
    exists j :: 0 <= j < |calls| && Covers(w, h, x, y, ring(calls[j].radius), k)
  }

  /** A pixel that no ring sample of any call hits keeps its value. */
  lemma {:induction false} ReplayUntouched(s: seq<Rgb>, w: nat, h: nat, x: int, y: int,
                                           ring: int -> seq<Offset>, calls: seq<Call>, k: int)
    requires |s| == w * h
    requires forall c :: c in calls ==> CallOk(c)
    requires 0 <= k < |s|
    requires !Touched(w, h, x, y, ring, calls, k)
    ensures Replay(s, w, h, x, y, ring, calls)[k] == s[k]
    decreases |calls|
  {
    if calls != [] {
      var n := |calls| - 1;
      var init := calls[..n];
      var last := calls[n];
      assert last in calls;
      assert !Touched(w, h, x, y, ring, init, k);
      ReplayUntouched(s, w, h, x, y, ring, init, k);
      assert !Covers(w, h, x, y, ring(last.radius), k);
      RasterizeAt(Replay(s, w, h, x, y, ring, init), w, h, x, y,
                  last.radius, last.blackOrWhite, ring(last.radius), k);
    }
  }

  /**
   * No final erase: after a whole ripple every pixel the radius-199 ring hits
   * keeps the faintest grey, Fade(199) == 1.
   */
  lemma LastRingRemains(s: seq<Rgb>, w: nat, h: nat, x: int, y: int,
                        ring: int -> seq<Offset>, k: int)
    requires |s| == w * h
    requires 0 <= k < |s|
    requires Covers(w, h, x, y, ring(Frames - 1), k)
    ensures forall c :: c in Schedule(Frames) ==> CallOk(c)
    ensures Replay(s, w, h, x, y, ring, Schedule(Frames))[k] == Grey(1)
  {
    ScheduleOk(Frames);
    RippleSchedule();
    var calls := Schedule(Frames);
    var init := calls[..|calls| - 1];
    RasterizeAt(Replay(s, w, h, x, y, ring, init), w, h, x, y,
                Frames - 1, DrawFlag, ring(Frames - 1), k);
    FadeEnds();
  }

  /**
   * `drawRipple` at (x, y): 200 frames, each erasing the ring of radius `i - 1`
   * and drawing the ring of radius `i`; `ring(r)` gives the 360 sample offsets
   * for radius `r`. `trace` records the calls made.
   */
  method DrawRipple(fb: Framebuffer, x: int, y: int, ring: int -> seq<Offset>)
    returns (ghost trace: seq<Call>)
    requires fb.Valid()
    requires forall r :: |ring(r)| == Samples
    modifies fb.pixels
    ensures trace == Schedule(Frames)
    ensures forall c :: c in trace ==> CallOk(c)
    ensures fb.pixels[..] == Replay(old(fb.pixels[..]), fb.width, fb.height, x, y, ring, trace)
  {
    ghost var before := fb.pixels[..];
    trace := [];
    for i := 0 to Frames
      invariant trace == Schedule(i)
      invariant forall c :: c in trace ==> CallOk(c)
      invariant fb.pixels[..] == Replay(before, fb.width, fb.height, x, y, ring, trace)
    {
      ScheduleOk(i + 1);
      fb.DrawCircle(x, y, i - 1, EraseFlag, ring(i - 1));
      ghost var erased := trace + [Call(EraseFlag, i - 1)];
      assert erased[..|trace|] == trace;
      fb.DrawCircle(x, y, i, DrawFlag, ring(i));
      trace := erased + [Call(DrawFlag, i)];
      assert trace[..|erased|] == erased;
    }
  }
}
