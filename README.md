# matrix-rain in Dafny

A verified model of the animation engine of `matrix_rain`, a terminal
"digital rain" effect. The model covers:

- the trail (class `Trail`): a bounded history of grid cells with the head at
  the front and the tail at the back. It grows one row downward per step,
  evicts its tail once it holds more than `max_length` cells, and advances at
  a fractional speed through an accumulator;
- the engine (class `MatrixRain`): a height x width frame buffer and the set
  of live trails. One tick may spawn trails. It then clears the buffer,
  retires trails whose tail has left the screen, paints the others, and
  advances every trail;
- the arithmetic of the program's sampler `r(min, max)` and `r.chance(p)`.
  It is used for spawn counts, spawn parameters and glyph choice.

Files:

- `sampling.dfy` (module `Sampling`) holds the sampler arithmetic.
- `trail.dfy` (module `Trails`) holds `Particle`, the step functions of
  `advance_by` and `advance`, their closed forms, and class `Trail`.
- `matrix_rain.dfy` (module `Rain`) holds glyph choice, spawning, and class
  `MatrixRain`.

Modelling choices:

- The `std::deque` of particles is a `seq<Particle>` field that the methods
  reassign (push at the front, pop at the back).
- The `std::set` of trails is a `set<Trail>` of objects.
- The display is an `array2<char>` written in place.
- `speed` and `advance_count` are exact rationals (`real`). Every uniform
  draw is a parameter in [0, 1): the glyph draws are a function from the
  draw's position in the stream, the spawn draws a function from the
  trail's index.
- The bounds guard of `update_display` is kept as written: it checks only
  `p.x < width && p.y < height`. The lower bounds that the array write needs
  are a stated precondition. `MatrixRain.Valid()` keeps every particle of
  every live trail at non-negative coordinates. That holds because spawning
  never produces a negative column or row, and trails only move down.
- The pop test `trail.size() > max_length` compares an unsigned size with
  `max_length` converted to unsigned. The model states it as `Evicts`: a
  negative `max_length` never evicts, so such a trail grows by one cell per
  pass.
- Removing a trail from the `std::set` while a range-for iterates over it
  invalidates the loop's iterator. That is undefined behaviour and a likely
  cause of the crash noted in the file header. Retirement is modelled as the
  filter the loop intends: it keeps the trails whose tail row is at most
  `height`, and then paints each kept trail once.

Where the code and the intent of its names disagree, the model follows the
code:

- `r(min, max)` computes `(T)(u * (max - min))` and never adds `min`. So
  `r(-max_trail_length, height)` never yields a row above the screen, even
  though the comment on `spawn_trail` says that it should.
  `r(1, (int)(20 * density))` yields between 0 and 5 trails at density 0.35,
  not between 1 and 7. `r(speed, 3 * speed)` yields a speed in
  [0, 2 * speed). `r(1, max_trail_length)` can yield a maximum length of 0,
  and such a trail keeps exactly one cell.
- `characters[r(0, size - 1)]` never picks the string's last byte. For the
  program's string, whose `£` takes two bytes in UTF-8, that byte is `?`.

## Model

| member | source | states |
|---|---|---|
| `Sampling.Trunc` | src/matrix_rain.cpp:94 | conversion to `int` truncates toward zero: the result is the integer next to x on the side of zero, less than one away |
| `Sampling.SampleReal` | src/matrix_rain.cpp:92-95 | the floating-point sample lies between 0 and max - min (strictly below it when min < max), not in [min, max) |
| `Sampling.SampleInt` | src/matrix_rain.cpp:92-95 | the integer sample lies in [0, max - min) when min < max, is 0 when they are equal, and lies in (max - min, 0] otherwise |
| `Sampling.ScaleBelow` | src/matrix_rain.cpp:94 | scaling a span by a draw in [0, 1) lands between zero and the span, never reaching the span |
| `Sampling.Chance` | src/matrix_rain.cpp:97-100 | `chance(p)` never fires for a negative p, always fires for p of 1 or more, and otherwise fires exactly for the draws in [0, p] |
| `Trails.Step` | src/matrix_rain.cpp:163-166 | one pass pushes a head one row below the old head in the same column; the rest is the old trail, minus its tail exactly when the unsigned test finds the new size above `max_length` (never for a negative `max_length`) |
| `Trails.AdvancedBy` | src/matrix_rain.cpp:158-168 | n passes of the loop never leave the trail empty |
| `Trails.AdvancedByHead` | src/matrix_rain.cpp:158-168 | after n passes the head is exactly n rows below the old head, in the same column, whatever the rest of the trail holds |
| `Trails.StepColumn` | src/matrix_rain.cpp:163-166 | one pass maps a column of len cells to the column one row lower with len + 1 cells, capped at max(max_length, 1) when `max_length` is not negative |
| `Trails.AdvancedByColumn` | src/matrix_rain.cpp:158-168 | closed form: n passes map a column with head row h and len cells to the column with head row h + n and min(len + n, max(max_length, 1)) cells, or len + n cells for a negative `max_length` |
| `Trails.AdvancedByMovesHead` | src/matrix_rain.cpp:158-168 | after `advance_by(n)` the trail is still a contiguous column in the start x; its size is min(size + n, max(max_length, 1)), or size + n for a negative `max_length`; the head row grew by exactly n; the tail row did not decrease |
| `Trails.AdvancedByAdd` | src/matrix_rain.cpp:158-168 | advancing by a and then by b gives the same trail as advancing by a + b |
| `Trails.ThreeCellExample` | src/matrix_rain.cpp:158-168 | a length-3 trail from (2, 0) holds rows 2, 1, 0 after two passes; after the third pass (2, 0) is evicted and (2, 3) is the head |
| `Trails.NegativeLengthExample` | src/matrix_rain.cpp:163-166 | with `max_length` -1 the unsigned pop test never fires: three passes from (0, 0) leave four cells, rows 3 down to 0 |
| `Trails.Accumulate` | src/matrix_rain.cpp:130-136 | `advance()` moves by whole cells and keeps a remainder in [0, 1) whose sum with the moved cells is the old accumulator plus the speed; it moves nothing while the sum stays below 1 |
| `Trails.Ticks` | src/matrix_rain.cpp:130-136 | over T calls, the cells moved plus the final accumulator equal the start accumulator plus the speed fed in, and the accumulator stays in [0, 1) |
| `Trails.TicksFloor` | src/matrix_rain.cpp:130-136 | from a fresh accumulator, the whole steps T calls at speed s hand to `advance_by` add up to exactly floor(T * s) |
| `Trails.AdvanceEffect` | src/matrix_rain.cpp:130-136 | one `advance()` call leaves a non-empty trail and an accumulator in [0, 1) |
| `Trails.AdvanceEffectMovesHead` | src/matrix_rain.cpp:130-136 | one `advance()` call keeps the head in its column and moves it by a whole number of rows k with k + new accumulator = old accumulator + speed |
| `Trails.AdvancedTimes` | src/matrix_rain.cpp:130-136 | T `advance()` calls leave a non-empty trail and an accumulator in [0, 1) |
| `Trails.AdvancedTimesBalance` | src/matrix_rain.cpp:130-136 | over T `advance()` calls the head keeps its column, and the rows it moved plus the final accumulator equal the start accumulator plus the speed fed in T times |
| `Trails.AdvancedTimesIsTicks` | src/matrix_rain.cpp:130-168 | T `advance()` calls leave the cells as one `advance_by` with the summed whole steps of `Ticks` would, and the accumulator at the remainder of `Ticks` |
| `Trails.AdvancedTimesMovesHead` | src/matrix_rain.cpp:130-168 | from a fresh accumulator, T `advance()` calls at speed s move a trail's head by exactly floor(T * s) rows in its column and leave the trail a contiguous column within its size bound |
| `Trails.Trail.constructor` | src/matrix_rain.cpp:125-128 | a new trail holds exactly one particle, at (start_x, start_y), with an empty accumulator and the given `max_length` (negative allowed) and speed |
| `Trails.Trail.X` | src/matrix_rain.cpp:138-140 | the head's column is the column of every particle of the trail |
| `Trails.Trail.Y` | src/matrix_rain.cpp:142-144 | the particle at index i sits exactly i rows above the head |
| `Trails.Trail.Last` | src/matrix_rain.cpp:146-148 | the tail is a particle of the trail, in the same column, at the topmost row, size - 1 rows above the head |
| `Trails.Trail.AdvanceBy` | src/matrix_rain.cpp:158-168 | the loop leaves the deque equal to n passes of the push/pop step (none for n < 0), keeps the trail invariant, and leaves the accumulator alone |
| `Trails.Trail.Advance` | src/matrix_rain.cpp:130-136 | the cells and accumulator change exactly as `AdvanceEffect` states: the head moves by the whole part of accumulator + speed, and the accumulator keeps the fraction in [0, 1) |
| `Rain.Glyph` | src/matrix_rain.cpp:281 | the painted glyph is one of `Drawable(characters)`, hence a character of `characters` whenever the string is non-empty |
| `Rain.GlyphReaches` | src/matrix_rain.cpp:281 | every character of `Drawable(characters)` is painted for some draw, so `Drawable` is exactly the set of glyphs a paint can write |
| `Rain.SpawnCount` | src/matrix_rain.cpp:219-220 | a spawn event creates a count that is not negative for a non-negative density and is at most (int)(20 * density) - 2 unless zero or less |
| `Rain.SpawnCountAtDefaultDensity` | src/matrix_rain.cpp:219-220 | at density 0.35 a spawn event creates between 0 and 5 trails, and a zero draw creates none |
| `Rain.SpawnStart` | src/matrix_rain.cpp:268-269 | a spawned trail starts in a column in [0, width) and a row in [0, height + max_trail_length), never above the screen |
| `Rain.SpawnLength` | src/matrix_rain.cpp:266 | a spawned trail's maximum length is not negative and at most max_trail_length - 2, or 0 |
| `Rain.SpawnSpeed` | src/matrix_rain.cpp:267 | a spawned trail's speed lies in [0, 2 * speed), and is 0 when the configured speed is 0 |
| `Rain.AdvancedByStaysOnGrid` | src/matrix_rain.cpp:163 | advancing a trail whose cells have non-negative coordinates keeps them non-negative |
| `Rain.OffScreen` | src/matrix_rain.cpp:275 | the retirement test `last().y > height` holds exactly when every particle of the trail lies below row `height` |
| `Rain.MatrixRain.constructor` | src/matrix_rain.cpp:205-213 | the display is a fresh height x width grid of blanks, and there are no trails |
| `Rain.MatrixRain.Clear` | src/matrix_rain.cpp:303-307 | every cell of the display is blank, and the display keeps the height and width it was built with |
| `Rain.MatrixRain.SpawnTrail` | src/matrix_rain.cpp:264-270 | exactly one fresh trail joins the set, built from the draws as the sampler computes them |
| `Rain.MatrixRain.SpawnTrails` | src/matrix_rain.cpp:253-257 | n distinct fresh trails join the set (none for n < 0), the i-th built from the i-th draws |
| `Rain.MatrixRain.PaintTrail` | src/matrix_rain.cpp:279-283 | every on-screen cell holding a particle of the trail receives a drawable glyph; every other cell keeps its content |
| `Rain.MatrixRain.PaintTrails` | src/matrix_rain.cpp:274-284 | starting from a blank display, a cell holds a drawable glyph exactly when a live trail has a particle there, and is blank otherwise |
| `Rain.MatrixRain.UpdateDisplay` | src/matrix_rain.cpp:272-285 | the live set becomes the old set minus the trails whose tail row exceeds `height`; a cell holds a drawable glyph exactly when a kept trail covers it, and is blank otherwise, so retired trails paint nothing |
| `Rain.MatrixRain.UpdatePositions` | src/matrix_rain.cpp:287-291 | every live trail changes exactly as one `advance()` call does (`AdvanceEffect`), and the engine invariant is kept |
| `Rain.MatrixRain.Tick` | src/matrix_rain.cpp:217-228 | after one tick every live trail was live before or is new, every trail that was off screen is gone, and the engine invariant holds |

## Left out

- The random generator itself (`std::random_device`, `std::mt19937`, the
  uniform distribution). Each draw is a parameter in [0, 1).
- Floating-point rounding of `speed`, `density` and `advance_count`. These
  are exact rationals here.
- `signal_handler` and the `stop_requested` flag. This is asynchronous
  signal delivery; `Tick` models one pass of the loop in `test()`.
- `system("clear")`, `print()`, the `sleep_for` pacing, the `DEBUG` trail
  count, `get_window_dimensions` (an `ioctl` call) and `main`. These are
  terminal I/O and process plumbing.
- Integer width. Particle coordinates, `max_length` and loop counts are C++
  `int`, and the model's integers are unbounded. So `y + 1` never overflows
  here, and the conversions from `double` to `int` never go out of range.
  The engine retires a trail once its tail passes row `height`, long before
  its rows could approach `INT_MAX`.
- `x()`, `y()` and `last()` return references into the deque; `X`, `Y` and
  `Last` return values. No caller in the program writes through those
  references.
- The order in which the `std::set` is iterated. It follows the addresses of the trail objects
  and cannot be observed, so the model picks trails in an arbitrary order.
  Where trails overlap, which glyph ends up in a cell is therefore not
  modelled; only that the glyph is drawable.
- `Rain.Glyph`: `characters` is the string's byte sequence, so the two bytes
  of `£` are separate entries. The UTF-8 decoding of the terminal is not
  modelled.
- `Trails.Trail.constructor`: requires a non-negative speed, under which the
  accumulator stays in [0, 1). Spawned trails always have one
  (`Rain.SpawnSpeed`).
- `Rain.MatrixRain.constructor`: requires non-negative `speed` and
  `max_trail_length`, which the program passes (1.0 and 50). It also
  requires non-negative height and width; a negative size makes the
  vector constructor throw.
- `Rain.MatrixRain.UpdateDisplay`: does not model the undefined behaviour of
  erasing from the set inside the range-for. It models the intended filter.
- `Rain.MatrixRain.Tick`: states only where the live trails come from and
  that retired ones are gone. What the frame shows is stated by
  `Rain.MatrixRain.UpdateDisplay`, and how trails move by
  `Rain.MatrixRain.UpdatePositions`.
