# Ripple rasterizer and frame schedule

This project models the drawing core of the `ripple` program, an SDL demo. Each left
click, and each mouse motion event (`DRAG_ENABLED` is 1), starts a thread that animates an
expanding, fading ring on the window surface.
Two parts are modelled:

- **`drawCircle`** (`Raster.Framebuffer.DrawCircle`). It takes 360 ring samples around a centre
  `(x, y)`. A sample that falls outside the `w × h` surface is skipped. Any other sample writes
  one pixel at row-major position `(y+dy)*w + (x+dx)`. In draw mode (`blackOrWhite == 1`) the
  colour is a grey that fades with the radius. With any other flag value it is black.
- **`drawRipple`** (`Ripple.DrawRipple`). It runs 200 frames. Frame `i` erases the ring of
  radius `i-1` and then draws the ring of radius `i`. A ghost trace records each
  `(blackOrWhite, radius)` call.

The modules follow the program's parts:

- `Pixels` (pixel.dfy) holds channel values, colours and the fade.
- `Raster` (raster.dfy) holds the framebuffer class, the rasterizer and its specification functions.
- `Ripple` (ripple.dfy) holds the schedule, its replay on a buffer, and the ripple method.

The framebuffer is a class with `width`, `height` and an `array<Rgb>` of pixels.
`DrawCircle` updates that array in place. Its `ensures` equates the new contents with
`Rasterize(old contents, …)`. `Rasterize` paints the list `Writes(…)` of in-bounds sample
positions with the call's `Colour`. `DrawRipple` ties the new contents to `Replay` of its trace,
and it proves that the trace is `Schedule(200)`.

Several inputs are parameters rather than computed values:

- The sample offsets are an input. `drawCircle` takes a `seq<Offset>` of length 360, and
  `drawRipple` takes a function `ring` from a radius to its 360 offsets. The source computes
  them as `(int)(radius*cos(i))` and `(int)(radius*sin(i))`, with `i` in radians.
- The fade `255 - 255*(radius/200.0)` converted to `Uint8` becomes the integer truncation
  `255*(200-radius)/200`. Its contract says that it is the exact truncation of the real value,
  so it never differs from the real value by 1 or more.

Three behaviours of the code are easy to miss, and the model follows each of them:

- The code does not guard the erase call of frame 0. It calls `drawCircle` at radius -1, and
  the model does the same (`Schedule(200)[0] == Call(0, -1)`).
- The code performs no final erase after the loop. The ring of radius 199 stays on screen with
  channel value `Fade(199) == 1`, not the background colour (`LastRingRemains`).
- The code writes pixels without taking any lock. Only the refresh thread locks.

## Model

| member | source | states |
|---|---|---|
| `Pixels.Fade` | ripple/main.c:150-152 | For radii 0..200 the channel value lies in [0, 255]. It is the truncation of 255 - 255·radius/200, so it is at most the exact value and within 1 of it. |
| `Pixels.FadeEnds` | ripple/main.c:150 | The fade is 255 at radius 0, 1 at radius 199 (within one unit of black) and 0 at radius 200. |
| `Pixels.FadeMonotone` | ripple/main.c:150 | The fade is non-increasing as the radius grows over 0..200. |
| `Pixels.Colour` | ripple/main.c:148-157 | r, g and b are always equal. Any flag other than 1 gives black whatever the radius. Flag 1 gives the fade value of the radius. |
| `Pixels.ColourDarkens` | ripple/main.c:149-152 | The draw colour at radius 0 is white. Over radii 0..200 a larger radius never gives a brighter draw colour. |
| `Pixels.EraseIsBlack` | ripple/main.c:153-157 | The erase colour is black at every integer radius, including -1. |
| `Raster.IndexInRange` | ripple/main.c:159 | The position `py*w + px` of an in-bounds pixel lies in [0, w·h), so every write stays inside the pixel buffer. |
| `Raster.IndexCoordinates` | ripple/main.c:159 | The position of an in-bounds pixel determines its coordinates (`k / w == py`, `k % w == px`), so distinct pixels never share a slot. |
| `Raster.Writes` | ripple/main.c:139-159 | The list has no more positions than there are samples, and every position lies in [0, w·h). |
| `Raster.WritesCovers` | ripple/main.c:143-146 | A position is written if and only if some sample `(x+dx, y+dy)` satisfies `0 <= x+dx < w` and `0 <= y+dy < h` and maps to it. Out-of-range samples write nothing. |
| `Raster.WritesAllInBounds` | ripple/main.c:143-146 | No sample is skipped if and only if every sample lies on the surface. |
| `Raster.PaintAt` | ripple/main.c:139-160 | After the writes, each written position holds the call's colour, and every other position keeps its old value. |
| `Raster.RasterizeAt` | ripple/main.c:134-161 | One `drawCircle` call sets pixel k to the call's colour if an in-bounds sample hits it. Otherwise pixel k is unchanged. |
| `Raster.EraseBlackens` | ripple/main.c:153-157 | An erase call leaves every pixel its samples hit black, at any radius. |
| `Raster.Framebuffer.DrawCircle` | ripple/main.c:134-161 | The 360-step loop leaves the pixel array equal to `Rasterize` of its old contents. Its array writes are proved in bounds, and it accepts any centre, including corners and edges. |
| `Ripple.ScheduleFrame` | ripple/main.c:112-115 | Frame i of the trace is exactly (erase, i-1) followed by (draw, i), so the erase always comes first. |
| `Ripple.ScheduleRadii` | ripple/main.c:112-115 | Every call of an n-frame schedule has a radius in [-1, n). Odd positions are draws and even positions are erases. |
| `Ripple.ScheduleOk` | ripple/main.c:112-115 | Up to 200 frames, every draw call has a radius whose fade colour is defined. |
| `Ripple.RippleSchedule` | ripple/main.c:112-119 | A ripple makes 400 calls. The first is (erase, -1) and the last is (draw, 199), so there is no final erase. No draw reaches radius 200. |
| `Ripple.ReplayUntouched` | ripple/main.c:106-120 | A pixel that no in-bounds sample of any call hits keeps its value through the whole ripple. |
| `Ripple.LastRingRemains` | ripple/main.c:112-119 | After a whole ripple, every pixel the radius-199 ring hits holds grey 1, not the background. |
| `Ripple.DrawRipple` | ripple/main.c:106-120 | It runs exactly 200 frames at any centre. Its trace is `Schedule(200)`, and the pixel array ends equal to `Replay` of that trace on the old contents. |

## Left out

- Window and surface creation (`create_window`, `create_window_surface`), the SDL event loop in
  `main` and the thread spawning are SDL and pthread calls that cannot be modelled. The
  `Framebuffer` constructor stands in for the surface (all black).
- The refresh thread `updateWindowSurface`, the mutex and the `is_game_running` flag live on the
  concurrent side. The model is sequential and does not model how threads interleave.
- The `SDL_Delay(16)` pacing is timing only and is dropped.
- The trigonometric offsets and their truncation to `int` are floating-point arithmetic. They
  are taken as inputs.
- `SDL_MapRGB` and the pixel format are a foreign call. Pixels are stored as channel triples.
- The buffer stride is the surface width, exactly as the source indexes it. The surface's
  `pitch` is not modelled.
- C `int` overflow in `x + dx`, `y + dy` and `(y+dy)*w` is not modelled. Integers are unbounded.
- `Pixels.Fade`: the model uses the exact integer truncation. The source computes in `double`.
  Evaluated as a separate multiply and subtract, the truncated double result equals `Fade` at
  every radius 0..200. A compiler that fuses the multiply and subtract into one FMA
  instruction gives 50 instead of 51 at radius 160. The model does not capture that case.
- `Pixels.Fade`: it requires 0 <= radius <= 200. Outside that range the source's double-to-`Uint8`
  conversion is undefined behaviour in C. Erase mode has no such requirement.
