# paperslave core, modelled in Dafny

paperslave is firmware for an e-paper clock. This project models three parts
of it and proves properties of them:

- **The framebuffer** (`src/fb.rs`). This is a 960 x 540 grayscale canvas of
  bytes stored row by row, where 255 is white and 0 is black. The model
  covers `new`, `clear`, `inside`, `get`, `set`, the saturating `paint` and the
  clipped rectangle fill `rect`.
- **The packing loop of `draw_framebuffer`** (`src/paper.rs`). It turns the
  canvas into the display's format of two pixels per byte: the top four bits
  of the left pixel go in the low nibble, those of the right pixel in the high
  nibble.
- **The time-adjust mode** (`src/adjust.rs`):
  - the field cycle;
  - the calendar step `adjust`, together with the date and time-of-day
    arithmetic it borrows from its calendar library;
  - the three button actions on the shared state;
  - the render task's loop. That loop redraws on every change and
    quick-clears the panel after 500 unchanged polls while dirty.

The modules are:

- `Wrappers`: an `Option` type.
- `Fb`: the framebuffer, as a class over an `array<int>`. The method contracts
  are stated through specification functions on sequences (`Painted`,
  `Filled`, `Lookup`).
- `Paper`: the packing loop as a method. It is proved equal to the function
  `Packed`, whose nibble layout is proved separately.
- `Calendar`: proleptic Gregorian dates and a time of day in seconds. Years
  range over -262144..262143, the range of chrono 0.4 before it was narrowed
  by one year at each end. The chrono release the firmware builds against is
  not part of this model; only these two bounds depend on it. It covers the library's
  one-day steps, signed-duration steps, month steps (with the day clamped) and
  overflowing time steps. A reference day numbering (`DayNumber`, `Seconds`,
  `MonthIndex`) is used to state what each step does.
- `Adjust`: the fields, `adjust`, the button actions, and the render loop.
  The render loop is both a pure step function (`Step`) and a `Renderer`
  class that owns the two framebuffers it swaps.

Points worth knowing about the code:

- The cycle order is Minutes, Hours, Days, Months, Years, Store and back to
  Minutes (`src/adjust.rs:181-190`).
- The shared state is only the selected field and a date-time
  (`src/adjust.rs:21-25`).
- Forward on Store does nothing; the commit is a TODO in the code
  (`src/adjust.rs:110-111`).
- `adjust` has no limit of its own on the date-time. A step that would leave
  the calendar library's date range keeps the old date (`unwrap_or(date)`).
- Out-of-canvas coordinates do not always make `get`/`set` fail. Only the
  linear index `y * WIDTH + x` is checked, so `get(-1, 1)` reads the last
  pixel of row 0 (`Fb.OffCanvasAliases`).
- The time is held in seconds, because the start state is
  `from_timestamp(0, 0)` and the time steps work in seconds. The steps only
  ever move whole minutes.

## Model

| member | source | states |
|---|---|---|
| Fb.Framebuffer.constructor | src/fb.rs:30-34 | a new framebuffer is a fresh buffer of WIDTH * HEIGHT white pixels |
| Fb.Framebuffer.Clear | src/fb.rs:36-38 | after `clear` every pixel is white and the buffer stays a byte buffer |
| Fb.Inside | src/fb.rs:40-42 | a point that passes `inside` has a row offset that fits in i32 and a linear index inside the buffer |
| Fb.InsideIffOwnPixel | src/fb.rs:40-42 | `inside(x, y)` holds exactly when the checked index exists and decodes back to column x and row y |
| Fb.IndexCoords | src/fb.rs:40-42 | for an inside point, y * WIDTH + x is a valid index whose column is x and row is y |
| Fb.CoordsOfIndex | src/fb.rs:40-42 | every buffer index is the index of an inside point |
| Fb.CheckedIndex | src/fb.rs:45-49 | the checked position, when it exists, is below WIDTH * HEIGHT |
| Fb.CheckedIndexSucceeds | src/fb.rs:44-62 | `get`/`set` succeed exactly when `y * WIDTH` fits in i32 and `y * WIDTH + x` lies in [0, WIDTH * HEIGHT), and then the position is that sum |
| Fb.Lookup | src/fb.rs:44-52 | `get` on given contents succeeds exactly when `y * WIDTH` fits in i32 and `y * WIDTH + x` lies in [0, WIDTH * HEIGHT); on the canvas it reads the pixel at y * WIDTH + x |
| Fb.OffCanvasAliases | src/fb.rs:44-52 | (-1, 1) is off the canvas, yet `get` returns the last pixel of row 0 |
| Fb.MulOverflowPanics | src/fb.rs:45-47 | the checked multiplication panics even where the exact linear index would be valid |
| Fb.Framebuffer.Get | src/fb.rs:44-52 | `get` panics exactly when the checked index does not exist; on the canvas it returns the pixel at y * WIDTH + x |
| Fb.Framebuffer.Set | src/fb.rs:54-62 | `set` succeeds exactly when the checked index exists and then writes only that byte; on panic nothing changes |
| Fb.Saturate | src/fb.rs:67-70 | Darken is the u8 saturating subtraction (never brighter), Lighten the saturating addition (never darker); 0 changes nothing |
| Fb.SaturateFull | src/fb.rs:79 | painting with `u8::MAX` drives any pixel to the paint's extreme, and repainting keeps it there |
| Fb.PaintedSpec | src/fb.rs:64-73 | `paint` off the canvas changes nothing; on the canvas it saturates exactly the pixel at y * WIDTH + x; every sample stays a byte |
| Fb.Framebuffer.Paint | src/fb.rs:64-73 | the buffer after `paint` is `Painted` of the buffer before |
| Fb.Filled | src/fb.rs:75-82 | the image of `rect` keeps the buffer length |
| Fb.FilledIdempotent | src/fb.rs:75-82 | filling the same rectangle twice equals filling it once; a rectangle with w <= 0 or h <= 0 changes nothing |
| Fb.FilledPixelsOk | src/fb.rs:75-82 | filling a rectangle keeps every sample a byte |
| Fb.Framebuffer.Rect | src/fb.rs:75-82 | accepts any rectangle whose `x + w` fits in i32, and one whose `y + h` fits too when w > 0; after the nested loops, every canvas pixel inside [x, x+w) x [y, y+h) is the paint's extreme and every other pixel is unchanged |
| Paper.Shr4 | src/paper.rs:97-98 | `v >> 4` is the top nibble: below 16, and v is 16 times it plus the low nibble |
| Paper.Shl4 | src/paper.rs:99 | `v << 4` on u8 clears the low nibble and is 16 * v for a nibble |
| Paper.BitOr | src/paper.rs:99 | bitwise or on naturals is at least each operand and at most their sum |
| Paper.BitOrDisjoint | src/paper.rs:99 | or-ing a value with its low k bits clear and a value below 2^k is addition |
| Paper.PackByte | src/paper.rs:97-99 | `r << 4` or-ed with `l` is 16 times the right pixel's top nibble plus the left pixel's top nibble |
| Paper.PackByteNibbles | src/paper.rs:97-100 | the packed byte is 16 * (right >> 4) + (left >> 4): a byte whose low nibble is the left pixel's top nibble and whose high nibble is the right pixel's |
| Paper.Packed | src/paper.rs:93 | the packed image has WIDTH / 2 * HEIGHT bytes |
| Paper.PackedEntry | src/paper.rs:96-100 | byte k holds the top nibble of pixel 2k low and that of pixel 2k + 1 high |
| Paper.PairLookup | src/paper.rs:96-98 | `get(2x, y)` and `get(2x + 1, y)` never panic in the loop and read pixels 2k and 2k + 1 of packed index k = y * (WIDTH / 2) + x |
| Paper.PackedAt | src/paper.rs:94-100 | packed byte y * (WIDTH / 2) + x holds `get(2x, y) >> 4` in its low nibble and `get(2x + 1, y) >> 4` in its high nibble |
| Paper.PackedExtremes | src/paper.rs:92-102 | an all-white canvas packs to 0xFF in every byte and an all-black one to 0x00 |
| Paper.PackFramebuffer | src/paper.rs:92-102 | the loop fills a fresh vector of WIDTH / 2 * HEIGHT bytes, equal to `Packed` of the framebuffer |
| Paper.PackRow | src/paper.rs:95-101 | the inner loop for row y writes exactly the bytes of that row, each to its packed value, and leaves every other byte alone |
| Calendar.DaysInMonth | src/adjust.rs:225-231 | month lengths lie between 28 and 31 |
| Calendar.TruncRem | src/adjust.rs:214-216 | the remainder that rounds toward zero: a = b * q + r, with r taking the sign of a and its magnitude below b |
| Calendar.NextDay | src/adjust.rs:220 | the next calendar day, when it exists, is a valid date |
| Calendar.PrevDay | src/adjust.rs:221 | the previous calendar day, when it exists, is a valid date |
| Calendar.NextDaySpec | src/adjust.rs:220 | the one-day forward step fails only on the last representable date and otherwise adds exactly one to the day number |
| Calendar.PrevDaySpec | src/adjust.rs:221 | the one-day backward step fails only on the first representable date and otherwise subtracts exactly one from the day number |
| Calendar.NextPrevInverse | src/adjust.rs:218-224 | the forward and backward one-day steps undo each other |
| Calendar.CheckedAddDays | src/adjust.rs:218-224 | stepping n days, when it succeeds, gives a valid date |
| Calendar.CheckedAddDaysShift | src/adjust.rs:218-224 | a successful n-day step moves the day number by exactly n |
| Calendar.DurationDays | src/adjust.rs:220-221 | `num_days` of a duration in seconds rounds toward zero: the seconds left over have the duration's sign and are less than a day |
| Calendar.CheckedAddSigned | src/adjust.rs:220 | `checked_add_signed` on a date, when it succeeds, gives a valid date |
| Calendar.CheckedSubSigned | src/adjust.rs:221 | `checked_sub_signed` on a date, when it succeeds, gives a valid date |
| Calendar.DiffMonths | src/adjust.rs:225-231 | the month step, when it succeeds, gives a valid date |
| Calendar.DiffMonthsSpec | src/adjust.rs:225-231 | a month step of n fails exactly when the target year is out of range; otherwise it lands n months away with the day clamped to the target month |
| Calendar.CheckedAddMonths | src/adjust.rs:227 | `checked_add_months`, when it succeeds, gives a valid date |
| Calendar.CheckedSubMonths | src/adjust.rs:228 | `checked_sub_months`, when it succeeds, gives a valid date |
| Calendar.OverflowingAdd | src/adjust.rs:215 | `overflowing_add_signed` keeps the time within a day |
| Calendar.OverflowingSub | src/adjust.rs:216 | `overflowing_sub_signed` keeps the time within a day |
| Calendar.OverflowingSpec | src/adjust.rs:214-216 | the overflow is a whole number of days in seconds, and time plus overflow is the exact sum (for subtraction, time minus overflow is the exact difference) |
| Adjust.Cycle | src/adjust.rs:181-190 | `cycle` never returns the field it was given |
| Adjust.CyclePeriodSix | src/adjust.rs:181-190 | from every field, six presses return to it and no fewer do, so all six fields are visited |
| Adjust.AdjustTime | src/adjust.rs:214-216 | the direction-chosen time step keeps the time within a day |
| Adjust.AdjustDateDuration | src/adjust.rs:218-224 | the duration step falls back to the old date on failure, so the result is always a valid date |
| Adjust.AdjustDateMonths | src/adjust.rs:225-231 | the month step falls back to the old date on failure, so the result is always a valid date |
| Adjust.Adjust | src/adjust.rs:205-247 | `adjust` always returns a valid date-time |
| Adjust.AdjustDateDurationDays | src/adjust.rs:218-224 | a zero duration keeps the date; a one-day duration is the one-day step, or no move at the range edge |
| Adjust.AdjustStoreIdentity | src/adjust.rs:243-246 | adjusting Store in either direction returns the date-time unchanged |
| Adjust.AdjustTimeUnit | src/adjust.rs:214-216 | one minute or hour moves the time of day modulo a day; the overflow is one day in seconds exactly when midnight is crossed |
| Adjust.AdjustTimeField | src/adjust.rs:233-239 | for Minutes and Hours, `adjust` is the time step followed by the date step by the overflow |
| Adjust.AdjustClockStep | src/adjust.rs:233-245 | for Minutes and Hours the time of day moves one unit modulo a day, and the date takes the one-day step exactly when midnight is crossed |
| Adjust.AdjustClock | src/adjust.rs:233-246 | Minutes/Hours move the time by one unit modulo a day, and move the date one day the same way exactly when midnight is crossed; the date is kept only at the range edge, and otherwise the instant moves by exactly one unit |
| Adjust.AdjustDateKeepsTime | src/adjust.rs:240-246 | Days, Months and Years leave the time of day untouched and are the date step alone |
| Adjust.AdjustDaysSpec | src/adjust.rs:240 | Days moves the date by exactly one day in the direction, and leaves it exactly at the range edge |
| Adjust.AdjustMonthsSpec | src/adjust.rs:241-242 | Months/Years move 1/12 calendar months with the day clamped to the target month, and leave the date when the target year is out of range |
| Adjust.AdjustExamples | src/adjust.rs:233-246 | 23:59 plus a minute rolls into the next day; 00:30 minus an hour rolls back across a leap day; Jan 31 plus a month is Feb 29 (2024) or Feb 28 (2023); Feb 29 plus a year is Feb 28 |
| Adjust.AdjustRoundTrip | src/adjust.rs:205-247 | a minute, hour or day forward and then back returns to the start, unless the date is the last one |
| Adjust.AdjustMonthsRoundTrip | src/adjust.rs:241-242 | a month or year forward and then back returns to the start when the day is at most 28 and the target is in range |
| Adjust.AdjustClampNotUndone | src/adjust.rs:241 | Jan 31 2023 plus a month and then minus a month is Jan 28 |
| Adjust.OnFieldCycle | src/adjust.rs:100-103 | the field-cycle button changes the field and keeps the time |
| Adjust.OnBackward | src/adjust.rs:104-107 | the backward button keeps the field and yields a valid time |
| Adjust.OnForward | src/adjust.rs:108-115 | the forward button keeps the field and yields a valid time |
| Adjust.StoreButtonsInert | src/adjust.rs:104-115 | with Store selected neither adjust button changes the state; the Store branch of forward agrees with calling `adjust` |
| Adjust.InitialState | src/adjust.rs:28-31 | adjust mode starts with Years selected at a valid date-time that is midnight at instant zero |
| Adjust.Step | src/adjust.rs:52-70 | a poll redraws exactly when the state differs; it quick-clears exactly when unchanged, dirty and on the 500th try; both restart with tries at 0; a clean, unchanged poll does nothing; the reachable invariant is kept |
| Adjust.IdlePolls | src/adjust.rs:52-71 | k unchanged polls give k decisions (only the length; where the quick-clear falls is `IdlePollsFrom`) |
| Adjust.IdlePollsFrom | src/adjust.rs:62-69 | counting from tries = t, the quick-clear comes exactly on unchanged poll 500 - t when dirty, and never when clean |
| Adjust.QuickClearOnStalePoll | src/adjust.rs:62-69 | after a change-driven redraw the quick-clear comes on exactly the 500th unchanged poll |
| Adjust.Renderer.constructor | src/adjust.rs:36-40 | the render task starts with two distinct white framebuffers, the snapshot of the shared state, and not dirty |
| Adjust.Renderer.RedrawFrame | src/adjust.rs:41-51 | the redraw puts the drawn frame in the framebuffer, hands on the previous frame and the drawn one, swaps the two buffers so that each holds what was handed on, and resets tries |
| Adjust.Renderer.Poll | src/adjust.rs:52-70 | one poll updates dirty and tries as `Step` says and takes the new snapshot; a redraw hands on the previous frame and the drawn one, a quick-clear hands on a blank previous frame and the drawn one, and after either the buffers have swapped and hold that pair; a plain poll changes no buffer |

## Left out

- `text_centered` and the font rendering, `AdjustField::format`, and the
  legend and field layout of `draw` in `src/adjust.rs`. Glyph rasterisation
  is floating point in a foreign library. A redraw takes the frame `draw`
  produces as a parameter (`drawn`, any buffer of bytes), so nothing is
  proved about what that frame shows.
- `PreparedFramebuffer::prepare_difference`, `DrawMode`, `quick_clear`,
  `epd_draw_base` and the rest of `src/paper.rs`. These are foreign display
  calls. The model only returns the pair of frames a redraw hands to the
  difference encoder.
- Paper.PackFramebuffer: the packed vector is returned instead of passed to
  the display.
- The threads, the shared lock, `press_latch` with its hold and repeat
  timing, and every delay. Each button action is modelled as one atomic
  read-modify-write of the state, which is what the lock provides.
- `src/thread.rs` and `src/main.rs` are not part of this model.
- The persistent counter and the Store commit. The code has a TODO there.
- Fractional seconds and leap seconds of the library's time of day. `adjust`
  only ever moves whole minutes, hours, days and months.
- Fb.Framebuffer.Rect: requires `x + w` to fit in i32, and `y + h` as well
  when w > 0. Those are the bounds the Rust loops compute (`y + h` only
  inside the outer loop). If one overflows, the program panics in a debug
  build and wraps in a release build; that case is not modelled.
- Fb.Framebuffer.Set: a panic is modelled as `ok == false` with the buffer
  unchanged, rather than as the end of the task.
- Fb.Framebuffer.Get: a panic is modelled as `None`.
