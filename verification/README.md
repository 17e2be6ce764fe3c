# PIXL core, modelled in Dafny

PIXL is a small 2D demo layer over SDL, OpenGL and Cairo. Most of it passes
calls through to those libraries. This project models the parts that hold
their own integer logic:

- **Sprite-sheet animation** (`PIXL_Animation`, graphics.cc). A class holds
  the column `m`, the row `n`, `playing`, `loop`, the frame duration `speed`
  and `start_time`. `Draw` turns the time elapsed since `Play` into a
  column. A looping animation wraps around the frames. A one-shot animation
  stops on the last frame and holds it. Each draw emits one axis-aligned
  integer quad. `PIXL_Sprite::draw` emits the same kind of quad for a whole
  image.
- **One-shot timer** (`PIXL_Timer`, app.cc). It has an interval, a start
  reading and an armed flag, and `Status` answers whether the timer is armed
  and its deadline has been reached.
- **Bounding-box collision** (`PIXL_bbc`, app.cc). It is a predicate on
  `SDL_Rect`s.
- **Scene state** (`PIXL_State`, app.h). It holds `play` or `quit`, passed
  through a `char` parameter.
- **Screen configuration** (`PIXL_Config`, config.h). Its resolution is fixed
  when it is made. The older copy in main.cpp adds `setResolution`.
- **Tile grid of the demo game** (test.cc). A loop fills a 750-slot `int`
  array with the origins of a 25 x 15 grid of 16-pixel tiles. The render
  step then draws 375 points from that array.

main.cpp holds older copies of `PIXL_Config`, `PIXL_Timer`, `PIXL_State` and
`PIXL_bbc`. Apart from `setResolution`, its timer, state and collision test
are the same code as in app.cc and app.h, so they share one model.

The clock (`SDL_GetTicks`) is a parameter `now: uint32`. Clock readings and
the `uint` fields that store them are unsigned 32-bit values (module
`Ticks`). `now - start_time` and `start_time + time` therefore wrap modulo
2^32, and the model writes that wrap out.

Two behaviours of the animation code are worth stating up front:

- `play` does not reset the column to 0. The next draw recomputes it.
- A zero frame duration fails an assertion in the constructor and in
  `setSpeed` (graphics.cc:220, 274), so it is a precondition here.

test.cc has no tile-atlas code: it draws point sprites with one 16 x 16
texture (test.cc:143, 209-214).

`PIXL_bbc` treats a box of zero width or height like any other: a 0 x 0
box inside a larger one collides with it although it covers no pixel
(`App.EmptyBoxCollides`).

Files: `ticks.dfy` (module `Ticks`), `graphics.dfy` (`Graphics`), `app.dfy`
(`App`), `settings.dfy` (`Settings`), `tiles.dfy` (`TileDemo`).

## Model

| member | source | states |
|---|---|---|
| `Ticks.Elapsed` | graphics.cc:245 | `now - start_time` on unsigned operands is the number of ticks that brings the start reading forward to `now`. It equals the plain difference when the clock has not wrapped. |
| `Ticks.WrappingAdd` | app.cc:74 | `start_time + time` on unsigned operands is the true sum, or the sum minus 2^32 when it overflows; in that case the result is smaller than the start reading. |
| `Ticks.ElapsedAfter` | graphics.cc:245 | Measured from a start reading, a reading taken `d` ticks later gives back exactly `d`, even across a wrap of the clock. |
| `Graphics.QuadAt` | graphics.cc:263-268 | A frame quad starts at `(x, y)`, its third corner is `(x + w, y + h)`, and every edge is parallel to an axis. This fixes the corners as `(x,y)`, `(x,y+h)`, `(x+w,y+h)`, `(x+w,y)` in that order. |
| `Graphics.QuadWinding` | graphics.cc:263-268 | Every emitted quad has the same winding and encloses exactly `w * h`: twice its signed area is `-2wh`. |
| `Graphics.Sprite.constructor` | graphics.cc:172-190 | A sprite keeps the width and height of its loaded image. |
| `Graphics.Sprite.Draw` | graphics.cc:198-212 | A sprite is drawn as the quad at `(x, y)` at the image's own size. |
| `Graphics.FrameCount` | graphics.cc:243 | The frame count is the number of whole cells that fit across the sheet. It is at least 1 when a cell fits. |
| `Graphics.SelectFrame` | graphics.cc:242-253 | The selected column is always on the sheet. A looping animation never stops. An animation that stopped shows its last column. |
| `Graphics.LoopStepsOneFrame` | graphics.cc:244-245 | A looping animation moves one column forward every `speed` ms, wrapping from the last column to column 0. |
| `Graphics.LoopPeriodic` | graphics.cc:244-245 | A looping animation repeats itself every `speed * frames` ms. |
| `Graphics.OneShotDuration` | graphics.cc:246-252 | A one-shot animation is still playing exactly while fewer than `speed * frames` ms have passed. |
| `Graphics.OneShotMonotone` | graphics.cc:246-252 | In a one-shot animation the column never goes back as time passes, and once stopped it stays stopped. |
| `Graphics.SheetExample` | graphics.cc:243-252 | A 92-pixel sheet of 23-pixel cells has 4 frames. At 100 ms a frame, played once, it shows column 2 after 250 ms and has stopped on column 3 after 500 ms. |
| `Graphics.Animation.constructor` | graphics.cc:215-223 | A new animation needs a non-zero speed. It starts at column 0, row 0, not playing, not looping, with the start reading set to `now`. |
| `Graphics.Animation.Draw` | graphics.cc:240-268 | While playing, the column and the playing flag become the frame selected for the elapsed time. When not playing, nothing changes, so a finished animation keeps its last frame. The row, loop flag, speed and start reading never change. The invariant (column on the sheet, speed non-zero) is kept. The quad is the cell size at `(x, y)`. |
| `Graphics.Animation.SetSpeed` | graphics.cc:272-276 | Requires a non-zero speed and changes only the speed. |
| `Graphics.Animation.Play` | graphics.cc:278-285 | Sets the row, the loop flag, `playing` and the start reading. It leaves the column, speed and cell size as they were. |
| `App.Timer.constructor` | app.cc:33-37 | A new timer holds the given interval and is not armed. Its start reading is left unset. |
| `App.Timer.Set` | app.cc:44-48 | Stores the new interval and disarms the timer, keeping the start reading (same code at main.cpp:87-91). |
| `App.Timer.Stop` | app.cc:53-56 | Disarms the timer and changes nothing else (same code at main.cpp:96-99). |
| `App.Timer.Start` | app.cc:61-65 | Records `now` as the start reading and arms the timer, keeping the interval (same code at main.cpp:104-108). |
| `App.Timer.Status` | app.cc:72-78 | True exactly when the timer is armed and the deadline is at or before `now`. Without a wrap, the deadline is `start_time + time`. Status changes no field (same code at main.cpp:115-121). |
| `App.ExpiredFromDeadline` | app.cc:61-78 | When the deadline does not wrap, an armed timer is not expired before `start_time + time` and is expired from then on. |
| `App.ExpiredMonotone` | app.cc:72-78 | Once a timer left alone has expired, it stays expired at every later reading. |
| `App.WrappedDeadlineFiresAtStart` | app.cc:74 | A timer started 10 ms before the clock wraps, for 100 ms, reports expiry at once. The deadline sum wrapped to 90 while no time has passed. |
| `App.ExpiredSinceAfter` | app.cc:74 | With expiry decided on the elapsed time, a timer armed for `time` ticks expires exactly when `time` ticks have passed, for every start reading. |
| `App.ExpiredSinceAgrees` | app.cc:72-78 | When nothing wraps, the elapsed-time decision agrees with `status()`. |
| `App.Collide` | app.cc:81-94 | Two boxes collide exactly when their spans `[x, x+w)` meet on both axes, that is, when none of the four separating conditions holds (same code at main.cpp:488-501). |
| `App.CollideSymmetric` | app.cc:83-86 | The order of the two boxes does not matter. |
| `App.SelfCollision` | app.cc:83-86 | A box collides with itself exactly when it is at least one pixel wide and one pixel high. |
| `App.CollideIffSharedPixel` | app.cc:81-94 | Two non-empty boxes collide exactly when some pixel lies in both. |
| `App.EmptyBoxCollides` | app.cc:83-86 | A 0 x 0 box at (5, 5) collides with a 10 x 10 box at the origin although it covers no pixel, so the shared-pixel reading needs non-empty boxes. |
| `App.ToChar` | app.h:50 | An integer passed to `set(char)` becomes the one `char` congruent to it modulo 256. Values in the `char` range pass unchanged. |
| `App.CharToUint` | app.h:50 | The `char` stored in the `uint` field becomes the one `uint` congruent to it modulo 2^32. It keeps its value exactly when it is not negative. |
| `App.EnumSurvivesChar` | app.h:49-51 | `play` and `quit` pass through the `char` parameter and come back unchanged from `get`. |
| `App.CharRoundTrip` | app.h:50-51 | Narrowing a stored state back to a `char` recovers the `char` that was set. |
| `App.State.constructor` | app.h:48 | A new state is `play` (0) (same code at main.cpp:432). |
| `App.State.Set` | app.h:50 | The state becomes the `char` argument, widened to `uint` (same code at main.cpp:434). |
| `App.State.Get` | app.h:51 | Returns the stored state and changes nothing (same code at main.cpp:435). |
| `App.QuitExample` | main.cpp:651 | A new state reads `play`. After `set(quit)`, which ends the main loop, it reads `quit`. |
| `Settings.NewConfig` | config.h:29-32 | The constructor arguments are stored unchanged, and `*w` and `*h` read them back. |
| `Settings.DefaultResolution` | config.h:29 | With no arguments the configuration is 640 x 480. |
| `Settings.ResizableConfig.constructor` | main.cpp:45 | The main.cpp configuration stores its arguments, 640 x 480 by default. |
| `Settings.ResizableConfig.SetResolution` | main.cpp:46 | Afterwards `*w` reads the new width and `*h` the new height. |
| `TileDemo.Positions` | test.cc:146-149 | There is one origin per tile, 25 * 15 in all. |
| `TileDemo.Flatten` | test.cc:100 | A list of points laid out as pairs takes two slots per point. |
| `TileDemo.FlattenAt` | test.cc:146-149 | Point `k` occupies slots `2k` (its x) and `2k + 1` (its y). |
| `TileDemo.ReadPoints` | test.cc:204-214 | The draw call reads `count` points, two consecutive `int`s each, all inside the buffer. |
| `TileDemo.ReadBack` | test.cc:204-214 | Reading pairs back from a flattened buffer gives the original points. |
| `TileDemo.FillPositions` | test.cc:146-149 | The loop writes all 750 slots, never outside the array, and leaves tile `k`'s origin `((k % 25) * 16 + 100, (k / 25) * 16 + 100)` in slots `2k` and `2k + 1`. |
| `TileDemo.DrawReadsLayout` | test.cc:214 | The 25 * 15 points drawn are exactly the 375 origins the constructor filled in, and they read no slot beyond the array. |
| `TileDemo.PositionsInBounds` | test.cc:147-148 | Every x lies in [100, 484] and every y in [100, 324]. |
| `TileDemo.PositionsInjective` | test.cc:147-148 | No two tiles share an origin. |
| `TileDemo.NextPosition` | test.cc:147-148 | The next tile lies 16 pixels to the right on the same row. After the 25th column it lies at x = 100 on the next row down. |

## Left out

- All calls into OpenGL, SDL, Cairo, Pango and Fontconfig are foreign
  libraries and are left out. This covers textures, `PIXL_FBO`,
  `PIXL_Layer`, `PIXL_Image`, `PIXL_Text`, the shader loader, the
  application and SDL initialisation, and the buffer upload in test.cc. The
  model treats the uploaded buffer as the array contents.
- Image and file loading (`IMG_Load`, filesystem.cc, `PIXL_LoadTextFile`,
  the XML map loader) is I/O. A loaded image's width and height are
  constructor parameters instead.
- The floating-point texture coordinates of `PIXL_Animation::draw` are not
  modelled. The model keeps the cell `(m, n)` they are computed from.
- Other floating-point code is left out: the phase updates, the
  fixed-timestep accumulator and the sin/cos demo positions. So are the FPS
  counter and the escape-key event loop, which are demo and input code.
- Graphics.Animation.SetSpeed: `speed` is a `float` in the source, read back
  through `(int)`. The model uses a positive 32-bit integer, so float rounding
  of speeds above 2^24 and the overflow of the cast above 2^31 are not
  modelled.
- Graphics.Animation.constructor: requires a cell width that is not zero and
  not wider than the sheet. With no whole cell on the sheet the source divides
  by zero (graphics.cc:245) and underflows (graphics.cc:250).
- Graphics.QuadAt: vertex coordinates such as `x + sprite_w` mix `int` and
  `uint` in the source and are converted back to `GLint`. The model adds
  unbounded integers, which agrees for all on-screen coordinates.
- The row passed to `play` is not checked in the source, and the model
  accepts any row too.
- `char` is taken to be signed, as on the x86 platforms the code targets.
  Its signedness is implementation-defined in C++.

## Findings

| source | as written | input that shows it | evidently intended | confidence | as-written member | corrected member |
|---|---|---|---|---|---|---|
| app.cc:74 | `start_time + time <= SDL_GetTicks()`, with the sum taken in 32-bit unsigned arithmetic | Start at tick 2^32 - 10 with interval 100: the deadline wraps to 90, so `status()` is true at the start tick although no time has passed | Expire once `time` ticks have elapsed since `start_time`, i.e. `now - start_time >= time` in unsigned arithmetic. This is wrap-safe, like the animation's elapsed time | not executed; medium (the clock wraps after about 49.7 days of uptime) | `App.WrappedDeadlineFiresAtStart` | `App.ExpiredSinceAfter` |

`App.Timer.Status` keeps the code's behaviour, since it models the code. The
corrected decision is `App.ExpiredSince`. `App.ExpiredSinceAgrees` proves
that the two agree wherever the deadline does not wrap.
