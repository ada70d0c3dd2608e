# SliderVanillaJS carousel: position and index model

SliderVanillaJS is a carousel for the browser. It has a strip of slides
(the "wrapper"), which is moved by changing its `left` offset. It also has
optional prev/next buttons, optional paging markers and drag gestures. The
repository ships the slider three times, and the three copies behave
differently. This project models the heart of each copy: the numeric state
(`index`, `left`, `startPos`, `endPos`, `posX1`, `posX2`, `allowShift`), the
button `hide` flags and the markers' `active` flags, and every handler that
updates them. It then proves what those handlers guarantee.

- `common.dfy` (module `SliderCommon`) holds the value types and the
  construction-time defaults. It also holds the drag arithmetic, which is the
  same in all three copies. The position helpers and the paging clamp are
  shared by the two multi-shift copies. The positional marker highlight is
  shared by the two class copies. A few lemmas about integer division
  complete it.
- `factory_script.dfy` (module `FactoryScript`) is the object literal
  `yv.slider` in `src/js/factory-script.js`. In it:
  - a shift moves `slidesToShift` slides;
  - markers exist only on aligned stops (multiples of `slidesToShift`);
  - infinite mode wraps by arithmetic to the last aligned stop.
- `class_script.dfy` (module `ClassScript`) is the class in
  `src/js/class-script.js`. It shifts in the same way but has one marker per
  slide. Its infinite underflow sends the index to the last slide but the
  offset to slide `slidesLength - slidesToShift`.
- `script.dfy` (module `Script`) is the class in `src/js/script.js`. It
  shifts one slide at a time. Its infinite mode uses two clone slides, one at
  each end of the strip. `checkIndex` then replaces a clone with the real
  slide it copies.

Each copy is a `class Slider`. The configuration (`slidesLength`,
`slideSize`, `infinite`, `showButtons`, `showPaging`, `limit`, and in the two
multi-shift copies `slidesToShift`) is fixed by the constructor and held in
`const` fields. The state
is held in `var` fields, which the handler methods update and declare in
`modifies` clauses. Each method is proved against a function of the old
state: `Limit`, `Shifted`, `Step`, `Teleport`, `HideRule`, `HighlightAt` and
`HighlightStop`. The source's promises are lemmas about those functions.

Identifications the model makes:
- The strip offset is one integer, `left`. It stands for both
  `wrapper.style.left` (written) and `wrapper.offsetLeft` (read back).
- A button exists exactly when `showButtons` is set. The paging box exists
  exactly when `showPaging` is set, and without it `markers` is empty.
- `slideSize` and the number of slide elements found are positive integer
  parameters of the constructor.
- `slidesToShift` and `slidesToLoad` are `Option<nat>`. `None` stands for a
  missing setting (`undefined`, `null` or `NaN`).

Behaviour kept as written, where the copies differ:
- In `src/js/class-script.js` the infinite underflow leaves index and offset
  disagreeing whenever `slidesToShift > 1`. The offset is still a whole
  number of slides, so `checkIndex` never re-snaps it
  (`ClassScript.WrapOffsetAgreesOnlyForSingleShift`).
- `src/js/script.js` hides buttons without looking at `infinite`.
- In `src/js/script.js`, `checkIndex` reopens `allowShift` before the
  re-snap, and the re-snap closes it again. So after a re-snap the flag is
  false.
- The button rule of every copy leaves the other button's flag as it was
  at an end. For example, a shift straight from slide 0 to the last slide
  leaves prev hidden there. `HideRuleAtEnds` states which flag the rule sets
  at each end and that the other flag keeps its old value there.

## Model

| member | source | states |
|---|---|---|
| SliderCommon.ShiftCount | src/js/factory-script.js:28 | A missing or zero `slidesToShift` means 1; any other count is kept. |
| SliderCommon.LoadedCount | src/js/factory-script.js:54-61 | `slidesToLoad` truncates the slide count only when it is a number not above the count found; otherwise the count found stays. |
| SliderCommon.DragLimit | src/js/factory-script.js:21 | The drag threshold is 50 pixels, the `limit` all three copies set (also `src/js/class-script.js:41` and `src/js/script.js:39`). Every `Valid()` holds `limit` to it, so each `DragEnd` verdict compares against 50. |
| SliderCommon.DragVerdict | src/js/factory-script.js:158-171 | A drag commits forward iff the displacement is strictly below `-limit`, back iff strictly above `limit`. In between, including exactly ±`limit`, the strip is restored. |
| SliderCommon.DragFollowTelescopes | src/js/factory-script.js:141-155 | After any non-empty sequence of `dragOut` moves, the offset equals the start offset plus the cursor's total displacement. |
| SliderCommon.DragFollow | src/js/factory-script.js:141-155 | The offset after a run of `dragOut` calls: each call moves the offset by the cursor's displacement since the previous call. |
| SliderCommon.At | src/js/factory-script.js:323 | Slide `i` at rest: index `i` at offset `-(i * slideSize)`. |
| SliderCommon.Advance | src/js/factory-script.js:258-268 | An allowed shift moves the index by `dir * slidesToShift` and the offset from `base` by `-dir * slidesToShift * slideSize`. Any `dir` other than ±1 moves nothing. |
| SliderCommon.AdvanceFromRest | src/js/factory-script.js:258-268 | A shift from slide `i` at rest lands at rest on slide `i ± slidesToShift`. |
| SliderCommon.PagingTarget | src/js/factory-script.js:313-321 | An in-range request is kept. Otherwise infinite mode wraps below to the last slide and above to slide 0, and clamped mode clamps to the nearer end. With at least one slide the result is in range. |
| SliderCommon.HighlightAt | src/js/class-script.js:282-296 | Keeps the markers and their targets; exactly the marker at position `index` is active. |
| SliderCommon.HighlightAtIdempotent | src/js/class-script.js:282-296 | Re-running the positional highlight changes nothing. |
| SliderCommon.HighlightAtCount | src/js/class-script.js:282-296 | After the positional highlight, exactly one marker is active when `index` is in range, and none otherwise. |
| SliderCommon.ActiveCountIs | src/js/script.js:297-311 | Counting markers whose activity is "position equals `index`" gives 1 for an in-range index, else 0. |
| FactoryScript.LastStop | src/js/factory-script.js:212-225 | The index of the last aligned stop: `slidesLength - slidesLength % slidesToShift`, or `slidesLength - slidesToShift` when the count is a multiple. |
| FactoryScript.Limit | src/js/factory-script.js:210-250 | `shiftLimit`'s correction of an out-of-range position, per mode and per end. |
| FactoryScript.Shifted | src/js/factory-script.js:252-274 | The raw move from the origin when shifting is allowed, followed by `Limit` either way. |
| FactoryScript.LastStopIsLastAlignedStop | src/js/factory-script.js:212-225 | The stop used for the infinite underflow and the clamped overflow is a multiple of `slidesToShift`. It lies in `[n - slidesToShift, n)`, and it is not negative when there is a slide. |
| FactoryScript.LimitSettles | src/js/factory-script.js:210-250 | `shiftLimit` leaves an in-range index alone and brings any other into range, at rest on an aligned stop. The infinite underflow and the clamped overflow go to the last stop; the infinite overflow and the clamped underflow go to index 0, offset 0. |
| FactoryScript.ShiftedKeepsStops | src/js/factory-script.js:252-274 | A `shiftSlide` from an aligned stop ends on an aligned stop. |
| FactoryScript.ShiftedFromRest | src/js/factory-script.js:252-274 | A `shiftSlide` from an in-range slide at rest ends in range at rest, in both modes. |
| FactoryScript.ShiftedProperties | src/js/factory-script.js:252-274 | These facts together: a refused shift keeps an in-range position; the index ends in range; stops are kept; rest is kept. |
| FactoryScript.HideRule | src/js/factory-script.js:190-208 | The button flags `hideButton` leaves, per mode and index. |
| FactoryScript.HideRuleAtEnds | src/js/factory-script.js:190-208 | Clamped mode: slide 0 hides prev, and a stop whose group reaches the end hides next; at each of those ends the other button keeps its old flag. A button is hidden only at one of those ends. Infinite mode changes nothing. The rule is idempotent. |
| FactoryScript.StopCount | src/js/factory-script.js:329-347 | The number of markers `pagingBuilder` makes: one per multiple of `slidesToShift` below `slidesLength`. |
| FactoryScript.StopCountIsCeiling | src/js/factory-script.js:329-347 | The number of aligned stops is the ceiling of `slidesLength / slidesToShift`. |
| FactoryScript.HighlightStop | src/js/factory-script.js:290-308 | Keeps the markers and their targets; a marker is active iff its target equals `index`. |
| FactoryScript.HighlightStopIdempotent | src/js/factory-script.js:290-308 | Re-running the target-based highlight changes nothing. |
| FactoryScript.HighlightStopCount | src/js/factory-script.js:290-308 | Over the stop markers `0, k, 2k, ...`, exactly marker `index / k` is active when `index` is one of them, and none otherwise. |
| FactoryScript.SettledStopHighlighted | src/js/factory-script.js:276-308 | The markers `pagingBuilder` made, highlighted at an in-range aligned stop, have exactly one active marker: the one for that stop. |
| FactoryScript.Slider.InitConfig | src/js/factory-script.js:25-105 | Fixes the configuration defaults and starts at slide 0, offset 0, with shifting allowed. Prev starts hidden in clamped mode. The markers are built with marker 0 active. The slider starts at rest on a stop. |
| FactoryScript.Slider.PagingBuilder | src/js/factory-script.js:329-347 | One marker per multiple of `slidesToShift` below `slidesLength`, in order, with marker 0 active: `ceil(slidesLength / slidesToShift)` markers. |
| FactoryScript.Slider.HideButton | src/js/factory-script.js:190-208 | The flags become `HideRule` of the old flags when buttons exist; otherwise nothing changes. |
| FactoryScript.Slider.ShiftLimit | src/js/factory-script.js:210-250 | The position becomes `Limit` of the old position. |
| FactoryScript.Slider.ShiftSlide | src/js/factory-script.js:252-274 | The origin is updated only for an allowed button press, and `allowShift` ends false. The position is `Shifted` from the origin. The index ends in range. Rest and stops are kept. A refused shift keeps an in-range position. |
| FactoryScript.Slider.UpdatePagingIndex | src/js/factory-script.js:290-308 | The markers become the target-based highlight of the old markers at `index`. |
| FactoryScript.Slider.ShiftPaging | src/js/factory-script.js:310-327 | The slider goes to rest on the clamped-or-wrapped target, and `allowShift` is false. |
| FactoryScript.Slider.CheckIndex | src/js/factory-script.js:276-288 | Markers and buttons are updated for the index, and `allowShift` ends true. An aligned offset is kept; a misaligned one is re-snapped through `shiftPaging(index)`. The offset ends a whole number of slides. Settling from rest changes no position, and on a stop exactly one marker is active. |
| FactoryScript.Slider.DragStart | src/js/factory-script.js:125-139 | Records the current offset as the origin and the cursor position. |
| FactoryScript.Slider.DragOut | src/js/factory-script.js:141-155 | The strip follows the cursor: the offset minus the cursor position stays constant. |
| FactoryScript.Slider.DragEnd | src/js/factory-script.js:158-171 | On the drag verdict, commits `shiftSlide(±1, 'drag')` from the recorded origin, or restores the origin and keeps the index. |
| ClassScript.Limit | src/js/class-script.js:214-237 | `shiftLimit`'s correction of an out-of-range position, including the index/offset mismatch of the infinite underflow. |
| ClassScript.LimitSettles | src/js/class-script.js:214-237 | An in-range index is kept, and any other comes back into range. The infinite underflow goes to index `n - 1` and the overflow to 0; clamped mode goes to the nearer end. Every correction except the infinite underflow ends at rest. |
| ClassScript.WrapOffsetAgreesOnlyForSingleShift | src/js/class-script.js:216-220 | After the infinite underflow, index and offset agree iff `slidesToShift == 1`. The offset is still a whole number of slides. |
| ClassScript.Shifted | src/js/class-script.js:240-264 | The raw move from the origin when shifting is allowed, followed by `Limit` either way. |
| ClassScript.ShiftedProperties | src/js/class-script.js:240-264 | The index ends in range. A shift needing no correction moves the offset by exactly `slidesToShift * slideSize` and the index by `slidesToShift`. A refused shift keeps an in-range position. From rest the strip ends at rest in every case but one: an allowed infinite shift of `slidesToShift > 1` slides that runs below slide 0. |
| ClassScript.HideRule | src/js/class-script.js:198-211 | The button flags `hideButton` leaves, per mode and index. |
| ClassScript.HideRuleAtEnds | src/js/class-script.js:198-211 | Clamped mode: slide 0 hides prev and slide `n - 1` hides next, and at each end the other button keeps its old flag; a button is hidden only at an end. Infinite mode changes nothing. The rule is idempotent. |
| ClassScript.Slider.constructor | src/js/class-script.js:3-109 | Fixes the configuration defaults and starts at slide 0, offset 0, with shifting allowed. Prev starts hidden in clamped mode. One marker per slide, with marker 0 active. The slider starts at rest. |
| ClassScript.Slider.PagingBuilder | src/js/class-script.js:319-334 | One marker per slide, in order, targeting its own slide, with marker 0 active. |
| ClassScript.Slider.HideButton | src/js/class-script.js:198-211 | The flags become `HideRule` of the old flags when buttons exist; otherwise nothing changes. |
| ClassScript.Slider.ShiftLimit | src/js/class-script.js:214-237 | The position becomes `Limit` of the old position. |
| ClassScript.Slider.ShiftSlide | src/js/class-script.js:240-264 | The origin is updated only for an allowed button press, and `allowShift` ends false. The position is `Shifted` from the origin, and the index ends in range. From rest it ends at rest unless an allowed infinite shift of `slidesToShift > 1` slides runs below slide 0. A refused shift keeps an in-range position. |
| ClassScript.Slider.UpdatePagingIndex | src/js/class-script.js:282-296 | The markers become the positional highlight of the old markers at `index`. |
| ClassScript.Slider.ShiftPaging | src/js/class-script.js:299-316 | The slider goes to rest on the clamped-or-wrapped target, and `allowShift` is false. |
| ClassScript.Slider.CheckIndex | src/js/class-script.js:267-279 | Markers and buttons are updated for the index, and `allowShift` ends true. An aligned offset is kept; a misaligned one is re-snapped. The offset ends a whole number of slides. With an in-range index exactly one marker is active. |
| ClassScript.Slider.DragStart | src/js/class-script.js:131-145 | Records the current offset as the origin and the cursor position. |
| ClassScript.Slider.DragOut | src/js/class-script.js:148-162 | The strip follows the cursor: the offset minus the cursor position stays constant. |
| ClassScript.Slider.DragEnd | src/js/class-script.js:165-178 | On the drag verdict, commits `shiftSlide(±1, 'drag')` from the recorded origin, or restores the origin and keeps the index. |
| Script.Rest | src/js/script.js:313-328 | The offset at which slide `i` rests: one slide further along in infinite mode, past the leading clone. |
| Script.Limit | src/js/script.js:244-252 | `shiftLimit`'s correction: only indices `-1` and `slidesLength` are moved. |
| Script.Step | src/js/script.js:254-272 | One slide forward or back from the origin when shifting is allowed, followed by `Limit` in clamped mode only. |
| Script.Teleport | src/js/script.js:277-283 | The clone correction: the leading clone becomes the last slide and the trailing clone slide 0. |
| Script.RestAligned | src/js/script.js:313-328 | Every slide's rest offset, in either mode, is a whole number of slides. |
| Script.StepMoves | src/js/script.js:244-272 | A refused shift moves nothing. An allowed one moves exactly one slide and one index, unless clamped mode corrects it at an end. The index stays in range in clamped mode and within the clones in infinite mode. |
| Script.StepFromRest | src/js/script.js:254-272 | A shift from a slide at rest, with its origin at that slide's rest, ends at rest on a real slide or, in infinite mode, on a clone. |
| Script.TeleportSettles | src/js/script.js:277-283 | The clone correction takes any settled position, clones included, to a real slide at rest with a whole-slide offset. A real slide is left alone. |
| Script.Neighbour | src/js/script.js:254-295 | The slide a settled press reaches: modulo `slidesLength` in infinite mode, clamped to the ends otherwise. |
| Script.Press | src/js/script.js:254-295 | One allowed button press followed by the clone correction of the settle handler. |
| Script.Presses | src/js/script.js:254-295 | `m` presses in the same direction, each allowed to complete. |
| Script.PressReachesNeighbour | src/js/script.js:254-295 | A press plus its settle moves from a slide at rest to its neighbour at rest. Infinite mode goes round modulo `slidesLength`; clamped mode stops at the ends. |
| Script.PressesGoRound | src/js/script.js:254-295 | In infinite mode, `m` presses of next from slide `i` reach slide `(i + m) mod slidesLength` at rest. |
| Script.PressesClamp | src/js/script.js:244-295 | In clamped mode, `m` presses of next from slide `i` at rest reach slide `min(i + m, slidesLength - 1)` at rest: they climb one slide each and then stay on the last slide. |
| Script.FullRoundReturns | src/js/script.js:254-295 | In infinite mode, `slidesLength` presses of next return to the starting slide. |
| Script.HideRule | src/js/script.js:229-242 | The button flags `hideButton` leaves, by index alone. |
| Script.HideRuleAtEnds | src/js/script.js:229-242 | In both modes, slide 0 hides prev and the last slide hides next, and at each end the other button keeps its old flag; a button is hidden only at an end. The rule is idempotent. |
| Script.Slider.constructor | src/js/script.js:3-143 | Applies the load limit and starts at slide 0, at offset `-slideSize` in infinite mode (past the leading clone) or 0 otherwise. Shifting is allowed, and prev starts hidden in clamped mode. One marker per slide with marker 0 active. The slider starts at rest. |
| Script.Slider.PagingBuilder | src/js/script.js:334-349 | One marker per slide, in order, targeting its own slide, with marker 0 active. |
| Script.Slider.HideButton | src/js/script.js:229-242 | The flags become `HideRule` of the old flags when buttons exist; otherwise nothing changes. |
| Script.Slider.ShiftLimit | src/js/script.js:244-252 | Only index `-1` (to 0, offset 0) and `slidesLength` (to the last slide at rest) are corrected. |
| Script.Slider.ShiftSlide | src/js/script.js:254-272 | The origin is updated only for an allowed button press, and `allowShift` ends false. The position is `Step` from the origin, with no correction in infinite mode. A refused shift moves nothing. The index stays in range (clamped) or within the clones (infinite). |
| Script.Slider.UpdatePagingIndex | src/js/script.js:297-311 | The markers become the positional highlight of the old markers at `index`. |
| Script.Slider.ShiftPaging | src/js/script.js:313-332 | The index is taken verbatim, with no clamping. The offset is that slide's rest offset, and `allowShift` is false. |
| Script.Slider.LeaveClone | src/js/script.js:277-283 | The position becomes `Teleport` of the old one: the leading clone becomes the last slide and the trailing clone slide 0, both at their infinite-mode rest. |
| Script.Slider.CheckIndex | src/js/script.js:274-295 | Clones are replaced first, and markers and buttons follow the replaced index. `allowShift` ends true iff the replaced offset is a whole number of slides; otherwise the slider is re-snapped to rest. From a settled position it ends at rest, shifting allowed, with exactly one active marker. |
| Script.Slider.DragStart | src/js/script.js:163-177 | Records the current offset as the origin and the cursor position. |
| Script.Slider.DragOut | src/js/script.js:180-194 | The strip follows the cursor: the offset minus the cursor position stays constant. |
| Script.Slider.DragEnd | src/js/script.js:197-210 | On the drag verdict, commits `shiftSlide(±1, 'drag')` from the recorded origin, or restores the origin and keeps the index. |

## Left out

- DOM handling: element lookup, creation, insertion, cloning and removal, and
  class-list calls other than the `hide` and `active` flags. These are
  browser calls; only their effect on the numbers and flags is modelled.
  The truncation loop removes slide elements, and only the resulting slide
  count is modelled. The same holds for `src/js/script.js:67`, which removes
  `slides[0]` again and again.
- Slide-size measurement: `getComputedStyle`, `offsetWidth` and the parsing
  of `'px'` strings. `slideSize` is a positive integer parameter, and
  fractional pixel sizes are not modelled. The `'px'` formatting of `left`
  and the `parseInt` read-back are left out too. `left` is an integer
  throughout, so the divisibility tests agree with the source's.
- Event plumbing: adding and removing listeners, and `touch`/`mouse` event
  decoding. `DragStart`, `DragOut` and `DragEnd` take the cursor
  position as a parameter.
- The Tab-key handlers `initKeysEvents` and `initKeyBoardEvents`: they only
  call `shiftSlide(1)`, which is modelled.
- Layout: CSS transitions, the `shifting` and `loaded` classes, and the view
  and wrapper widths.
- The clone elements of `src/js/script.js`: only their positions (index `-1`
  and `slidesLength`) are modelled.
- The demo instantiations at the end of each file.
- An empty slide list: the source fails when it measures `slides[0]`
  (`src/js/factory-script.js:42`, `src/js/class-script.js:46`,
  `src/js/script.js:44`). The model's slide count is a positive parameter,
  so that failure is not modelled.
- Script.Slider.constructor: does not model the failure when `slidesToLoad`
  is 0 in infinite mode. The load limit makes `slidesLength` 0, and cloning
  `slides[slidesLength - 1]` (`src/js/script.js:64-77`) then fails. The
  model instead builds a slider with no slides at offset `-slideSize`.
- Negative or fractional `slidesToShift` and `slidesToLoad` settings: the
  model takes them as natural numbers.
- Script.Slider.ShiftSlide: its contract does not itself say that a shift
  from rest ends settled. `Script.StepFromRest` states this about the
  `Step` function the method is proved equal to.
