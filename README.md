# Tiny Clippy: animation controller and sprite compositor in Dafny

Tiny Clippy shows an animated "Clippy" sprite in a small transparent desktop
window. The frames are cut from a sprite sheet of 124 x 93 cells. This project
models the two pieces of the program that make decisions:

- **The clip-based controller of the egui front end** (`src/main.rs`), in
  module `ClipAnimation`. It is a three-state machine (`Idle`,
  `Playing { clip, current_linear_frame }`, `Cooldown`). It runs over a fixed
  catalog of 24 clips and has two elapsed-time gates: frames advance every
  75 ms, and while idle or cooling down a new clip may start every 95 ms. A
  clip cannot start until 9 s after the previous one ended. The `Animation`
  struct is the class `ClipAnimation.Animation`. It has the same four fields
  and its methods change them in place. Each method is proved against a pure
  function on the `Controller` value: `NextFrame`, `MaybeStart` or
  `UpdateState`. The lemmas state the properties of those functions, both for
  one call and over runs of calls (`Run`).
- **The row-based tick and the blit of the three archived backends**
  (`archive/*.rs`):
  - Module `RowTick` holds the `AppState` tick, which all three files share.
    Every 66 ms, either a random row in [1, 33] may start at column 0 (when
    the 5 % draw succeeds; otherwise only `last_update` changes), or the
    column advances. After 27 columns the state resets to (0, 0).
  - Module `Compositor` gives, for every destination index, the value that
    clearing and then blitting the current cell leaves there.
  - Modules `SoftbufferBackend`, `PixelsBackend` and `MinifbBackend` hold each
    backend's clear and blit loops. Each is an in-place loop over an `array`,
    proved against the `Compositor` functions.
  - `Sheet` holds the RGBA pixel type, the image, and the `0x00RRGGBB`
    packing.

The clock is a `nat` count of milliseconds. `Instant::duration_since`
saturates at zero, and `Elapsed` does the same. The random draws are passed in
as oracle values:
- `trigger`: the outcome of the trigger-chance draw (`< 1.0` in `src/main.rs`,
  `< 0.05` in the archives);
- `clipIndex`: the value of `gen_range(0..len)`, so it is below the catalog
  length;
- `rowDraw`: the random `u32` from which the archives take `% 33 + 1`.

`advance_frame` reads the clock again. The model passes it the same `now` as
the enclosing `update`. The sprite sheet is an `Image` value, with
`pixels[y][x]` and its width and height.

### Behaviour of the code worth noting

- The archived blits test only `src_x < img_width`. `get_pixel` panics for a
  row past the sheet's height, so there is no vertical clipping: a source
  row below the sheet is never treated as transparent. `RowsAvailable` is
  therefore a precondition of every blit. The handlers ask for a sheet at
  least 34 cells tall, because rows 0..33 can be drawn.
- In `src/main.rs` two `update` calls less than 75 ms apart can show
  different cells. The 95 ms idle-check gate is independent of the frame
  gate, so it can start a clip between two frame advances.
  `FrameGateAloneDoesNotFreeze` gives a concrete run from `new` at time 0,
  with calls at 80 ms and at 100 ms. What holds is that a call inside both
  gates changes nothing (`UpdateWithinGatesIsNoop`).

## Model

| member | source | states |
|---|---|---|
| `Clock.Elapsed` | src/main.rs:149 | the elapsed time is `now - earlier` when `earlier <= now`, and saturates to 0 when `earlier` is later |
| `ClipAnimation.AnimationClip.Length` | src/main.rs:40-42 | a clip with `start <= end` has length at least 1, and `start + length - 1 == end` |
| `ClipAnimation.Catalog` | src/main.rs:54-79 | the catalog has 24 clips, and each has `start <= end <= 885` |
| `ClipAnimation.CatalogFramesInSheet` | src/main.rs:54-79 | every frame of every catalog clip lies in a grid row of at most 32, and every catalog clip has length at least 1 |
| `ClipAnimation.LinearToGrid` | src/main.rs:98-102 | the result `(col, row)` has `col < 27` and `row * 27 + col == n` |
| `ClipAnimation.GridRoundTrip` | src/main.rs:98-102 | `linear_to_grid` inverts row-major linearisation: `(col, row)` with `col < 27` comes back from `row * 27 + col` |
| `ClipAnimation.Animation.constructor` | src/main.rs:89-96 | a new controller is Idle, with all three timestamps at `now` |
| `ClipAnimation.Animation.AdvanceFrame` | src/main.rs:122-145 | the new state and timestamps are `NextFrame` of the old ones |
| `ClipAnimation.AdvanceFrameCases` | src/main.rs:122-145 | Idle and Cooldown are unchanged; a playing clip steps to `current + 1` with the same clip, or becomes Cooldown with `last_animation_end := now` once `current + 1 > end`; the other timestamps are untouched |
| `ClipAnimation.Animation.MaybeStartAnimation` | src/main.rs:147-183 | the new state is `MaybeStart` of the old one with the given draws |
| `ClipAnimation.CooldownFloorBlocksStart` | src/main.rs:148-152 | in Cooldown with less than 9 s since the clip ended, nothing changes, whatever the draws |
| `ClipAnimation.StartPlaysCatalogClip` | src/main.rs:153-172 | from Idle, or from a Cooldown whose floor has passed: with the trigger drawn, the state becomes `Playing(catalog[i], catalog[i].start)`; without it, the state becomes Idle; the timestamps are unchanged |
| `ClipAnimation.Animation.Update` | src/main.rs:104-120 | the new state is `UpdateState` of the old one, and the returned cell is the sprite coordinate of the new state |
| `ClipAnimation.UpdateTimestamps` | src/main.rs:104-120 | `last_frame_time` becomes `now` exactly when the 75 ms gate fires; `last_idle_check` changes only to `now` and only when its 95 ms gate fires; `last_animation_end` changes only when a playing clip ends |
| `ClipAnimation.UpdateWithinGatesIsNoop` | src/main.rs:107-117 | a call before the frame gate fires, and before the idle gate fires or while playing, changes nothing |
| `ClipAnimation.FrameGateAloneDoesNotFreeze` | src/main.rs:107-117 | from the controller `new` builds at time 0, calls at 80 ms and at 100 ms are less than 75 ms apart after the frame gate fired, yet the second fires the 95 ms idle-check gate, starts a clip and changes the displayed cell |
| `ClipAnimation.UpdatePreservesInv` | src/main.rs:104-120 | a playing clip always comes from the catalog and has `start <= current <= end` after an update if it did before |
| `ClipAnimation.RunPreservesInv` | src/main.rs:104-120 | the same invariant holds after any run of updates |
| `ClipAnimation.PlayingSteps` | src/main.rs:137-141 | while frames remain, each update whose frame gate fires moves the clip forward exactly one frame and keeps `last_animation_end` |
| `ClipAnimation.PlayingEnds` | src/main.rs:128-135 | a clip at `current` enters Cooldown on exactly the `(end - current + 1)`-th fired frame gate, stamped with that update's time |
| `ClipAnimation.ClipLastsItsLength` | src/main.rs:128-141 | a clip started at its first frame is still playing after fewer than `length()` fired frame gates, and is in Cooldown after exactly `length()` |
| `ClipAnimation.CooldownHoldsUntilDelay` | src/main.rs:147-152 | over any run of updates, however often the idle gate fires and whatever the draws, the state stays Cooldown until 9 s have passed since the clip ended |
| `ClipAnimation.CooldownEndsAfterDelay` | src/main.rs:112-116 | once 9 s have passed, the next fired idle check leaves Cooldown, and with the trigger drawn starts the drawn catalog clip in the same call |
| `ClipAnimation.SpriteCoordinates` | src/main.rs:185-192 | Idle and Cooldown display `(0, 0)`; a playing clip displays the `(col, row)` with `col < 27` and `row * 27 + col == current` |
| `ClipAnimation.CoordinatesInSheet` | src/main.rs:185-192 | in every state satisfying the invariant, the displayed cell has column below 27 and row at most 32 |
| `ClipAnimation.IsPlaying` | src/main.rs:194-196 | holds iff the state is Playing; when it does not hold, the displayed cell is `(0, 0)` |
| `ClipAnimation.TimeUntilNextAnimation` | src/main.rs:198-207 | `Some(d)` iff in Cooldown with elapsed time below 9 s, and then `0 < d <= 9 s` and `elapsed + d == 9 s`; otherwise `None` |
| `ClipAnimation.StateProgress` | src/main.rs:209-223 | a pair exists iff the state is Playing; `start + progress == current` and `total == length()`; `progress < total` iff `current <= end` |
| `RowTick.AppState.constructor` | archive/main_softbuffer_version.rs:48-53 | the initial state is at rest: `frame = row = 0`, not animating, and it satisfies the invariant |
| `RowTick.AppState.Tick` | archive/main_softbuffer_version.rs:72-88 | the new fields are `TickSpec` of the old ones with the given draws |
| `RowTick.TickGate` | archive/main_softbuffer_version.rs:72-88 | within 66 ms of `last_update` a tick changes nothing; when the gate fires, `last_update := now` |
| `RowTick.TickStartsRow` | archive/main_pixels.rs:81-87 | from rest with the trigger drawn, the state is animating with `frame = 0` and `row = r % 33 + 1`, which lies in [1, 33]; without the trigger only the timestamp changes |
| `RowTick.TickPreservesInv` | archive/main_minifb.rs:94-110 | `frame < 27` always; an animating state has a row in [1, 33]; a state at rest is at `(0, 0)` |
| `RowTick.WalkRow` | archive/main_softbuffer_version.rs:79-80 | while frames remain, each fired gate advances `frame` by one on the same row |
| `RowTick.WalkRowEnds` | archive/main_softbuffer_version.rs:79-86 | from column `f`, exactly `27 - f` fired gates bring the state back to rest at `frame = row = 0` |
| `Sheet.Pack` | archive/main_softbuffer_version.rs:114-117 | the packed word has a zero top byte, so it is at most `0xFFFFFF` |
| `Sheet.PackRoundTrip` | archive/main_minifb.rs:128-132 | unpacking the `0x00RRGGBB` word gives back the pixel's red, green and blue |
| `Compositor.CellPixel` | archive/main_softbuffer_version.rs:108-113 | a pixel is copied only from an existing column, and only when its alpha exceeds 10; an existing column with alpha at most 10 is not copied |
| `Compositor.PackedAt` | archive/main_minifb.rs:113-136 | every word of a cleared and redrawn buffer is at most `0xFFFFFF` |
| `Compositor.DestIndexBijection` | archive/main_pixels.rs:111-113 | chunk index `i < 124*93` maps to `x = i % 124 < 124` and `y = i / 124 < 93`, and `y * 124 + x` maps back to `(x, y)`, so each destination pixel is visited once |
| `Compositor.PackedPixel` | archive/main_softbuffer_version.rs:103-126 | after clear and blit, `buffer[y*124+x]` is the packed sheet pixel `(frame*124+x, row*93+y)` iff `src_x < img_width` and alpha > 10, and 0 otherwise; that word unpacks to the pixel's colour |
| `Compositor.RgbaChunk` | archive/main_pixels.rs:111-123 | byte `k` of chunk `y*124+x` is byte `k` of sheet pixel `(frame*124+x, row*93+y)` iff `src_x < img_width` and alpha > 10, and 0 otherwise |
| `Compositor.AlphaBytesThresholded` | archive/main_pixels.rs:119-121 | every alpha byte of the drawn frame is 0 or above 10 |
| `SoftbufferBackend.FillZero` | archive/main_softbuffer_version.rs:101 | every buffer element is 0 |
| `SoftbufferBackend.DrawCell` | archive/main_softbuffer_version.rs:103-126 | every index takes its `BlitWord` value: the packed visible pixel for an index inside the frame, and otherwise its old value; only in-range indices are written |
| `SoftbufferBackend.RedrawRequested` | archive/main_softbuffer_version.rs:69-126 | the tick follows `TickSpec` and keeps the invariant; then every element of the buffer is the `PackedAt` value of the new cell |
| `PixelsBackend.ClearChunks` | archive/main_pixels.rs:103-105 | every byte of every whole 4-byte chunk is 0, and the trailing bytes keep their values |
| `PixelsBackend.DrawChunks` | archive/main_pixels.rs:108-124 | chunk `i` receives the visible sheet pixel's four RGBA bytes, and otherwise keeps its old bytes; the trailing bytes are untouched |
| `PixelsBackend.RedrawRequested` | archive/main_pixels.rs:78-124 | the tick follows `TickSpec` and keeps the invariant; then every byte of the `4*124*93`-byte frame is the `RgbaByteAt` value of the new cell; the frame's length never changes |
| `MinifbBackend.ClearBuffer` | archive/main_minifb.rs:113 | every buffer element is 0 |
| `MinifbBackend.DrawCell` | archive/main_minifb.rs:115-136 | with a buffer of exactly `124*93` words, every index takes its `BlitWord` value |
| `MinifbBackend.App.constructor` | archive/main_minifb.rs:47-57 | the buffer has `124*93` words, all 0, and the state is at rest |
| `MinifbBackend.App.Step` | archive/main_minifb.rs:94-143 | the tick follows `TickSpec`; when the 66 ms gate fires, the buffer is cleared and redrawn to the `PackedAt` values of the new cell; otherwise the same buffer is presented unchanged |

## Left out

- Window, surface and render plumbing: the eframe/egui setup, the `main`
  functions, `setup_transparent_ui`, context menus, the debug window,
  `request_repaint_after`, surface creation, `resize`, `present`, `render`,
  `resize_surface` and `update_with_buffer`. None of it makes a decision.
- `ClippyApp::extract_frame` and `update_texture`: they delegate the crop to
  the `image` crate, and that crate is not part of this model.
- Image loading (`image::open`, `load_from_memory`): the sheet is an input
  value.
- The random number generator and the `f32` comparison against the trigger
  chance: they become the oracle parameters `trigger`, `clipIndex` and
  `rowDraw`. In `src/main.rs` the chance is `1.0`, so a real draw always
  succeeds; the model still allows `trigger = false`.
- Sub-millisecond time: `Instant` and `Duration` become whole milliseconds,
  so `TimeUntilNextAnimation` reports whole milliseconds.
- The `!ANIMATION_CLIPS.is_empty()` test is kept, but the catalog is a
  constant with 24 entries, so the test always passes.
- The text built by `get_current_state_info`: only its progress and total
  arithmetic is modelled (`StateProgress`).
- Dragging: the minifb mouse-drag arithmetic on `f32` window positions, the
  `AppState` drag fields, `drag_window`, and `StartDrag`. All of these are
  input handling done through OS calls.
- `src/app.rs`, the web variant, is not part of this model. It consists of
  reactive signals, timers, a CSS opacity hack and canvas calls.
- Integer widths: frames, rows and indices are unbounded `nat` values. Under
  the invariants no `u32` value in the source can overflow. The
  `buffer.len() as u32` truncation in the softbuffer guard is not modelled.
- The catalog holds `AnimationClip` values directly. The source holds
  `(u32, u32)` pairs and builds the clip at selection time.
- SoftbufferBackend.RedrawRequested: requires a sheet at least 34 cells tall.
  The code needs only the rows of the cell being drawn; `DrawCell` requires
  exactly that (`RowsAvailable`).
- PixelsBackend.RedrawRequested: requires a sheet at least 34 cells tall, for
  the same reason. `DrawChunks` requires only the rows actually fetched.
- MinifbBackend.App.Step: requires a sheet at least 34 cells tall, for the
  same reason. `DrawCell` requires only the rows actually fetched.
- SoftbufferBackend.RedrawRequested: the `width > 0 && height > 0` check
  compares two constants and always passes, so it is not modelled.
