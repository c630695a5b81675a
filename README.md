# Wand tracker trail and indicator model

This project models the part of the wand tracker page (`client/src/pages/wand-tracker.tsx`) that has logic of its own. It also proves properties of that model in Dafny.

- **Trail points.** A `TrailPoint` has a fixed position and creation time and a mutable `age`. `update` recomputes the age and reports whether the point is still younger than the trail length. `getOpacity` fades linearly from 1 to 0 over the trail length.
- **The trail buffer.** `addTrailPoint` appends a point, then drops every expired point. `drawTrail` does nothing when the buffer holds fewer than two points. Otherwise it prunes the buffer and emits one stroke per consecutive pair whose ends are both visible. Each stroke uses the mean opacity of its two ends and a line width three times that mean. `clearCanvas` empties the buffer.
- **The wand indicator.** When a hand-tracking result has an index fingertip (landmark 8), the tip is scaled to canvas pixels, added to the trail, and the detection time is recorded. When no hand is seen, the indicator is hidden only once more than 500 ms have passed since the last detection.

The mutable parts are modelled as classes:

- `Trail.TrailPoint` holds the point's fields.
- `Tracker.WandTracker` holds the buffer and the detection state. These are the component's `useRef` values and the state setters that `onResults` calls.

The meaning of each operation is given by value-level functions that read no mutable state:

- `TrailBuffer.Kept` says which points survive a prune.
- `TrailBuffer.Drawn` says which strokes a draw emits.
- `Detection.Observe` and `Detection.Step` describe one tracking result.

Each method is proved against these functions, and the lemmas prove properties of the functions.

Other modelling choices:

- `Date.now()` becomes explicit integer parameters in milliseconds.
  - `addTrailPoint` reads the clock twice: `t0` is the creation time of the new point and `t1` is the prune time.
  - `onResults` reads it a third time (`t2`) to record the detection.
- The trail length is the slider value in whole seconds, 1 to 8 (`client/src/pages/wand-tracker.tsx:392-393`). It is converted to milliseconds as `trailSeconds * 1000`, as the code does.
- Opacity is an exact real.

A point whose creation time is later than the clock reading (the clock stepped back) has a negative age. Its opacity is then above 1. The model keeps this case and does not assume a monotone clock. Properties that need a monotone clock say so in their preconditions.

After a prune, every retained point is younger than the trail length, so its opacity is strictly positive. The `opacity1 > 0 && opacity2 > 0` test in `drawTrail` therefore never skips a pair. This holds whether or not the clock is monotone. `DrawnAllPairs` and `WandTracker.DrawTrail` prove that a draw emits exactly one stroke per consecutive pair of the pruned buffer, in buffer order.

`drawTrail` skips the prune, and leaves the ages untouched, when the buffer holds fewer than two points; the model follows the code.

## Model

| member | source | states |
|---|---|---|
| `Trail.TrailPoint.constructor` | client/src/pages/wand-tracker.tsx:14-19 | a new point keeps its position and creation time and starts with age 0 |
| `Trail.TrailPoint.Update` | client/src/pages/wand-tracker.tsx:21-24 | sets age to the current time minus the creation time and returns true exactly when that age is below the trail length |
| `Trail.TrailPoint.GetOpacity` | client/src/pages/wand-tracker.tsx:26-28 | the opacity at the point's recorded age is never negative, is 0 exactly once that age has reached the trail length, and is at most 1 for a non-negative age |
| `Trail.Opacity` | client/src/pages/wand-tracker.tsx:26-28 | the fade is never negative; it is 0 exactly when the age has reached the trail length; it is in (0, 1] exactly when 0 <= age < trail length; it exceeds 1 exactly for a negative age |
| `Trail.OpacityHalfway` | client/src/pages/wand-tracker.tsx:26-28 | halfway through the trail length the opacity is exactly 0.5 |
| `Trail.OpacityNonIncreasing` | client/src/pages/wand-tracker.tsx:26-28 | an older point is never drawn more opaque than a younger one |
| `TrailBuffer.Kept` | client/src/pages/wand-tracker.tsx:122-124 | a prune never grows the buffer, and every point it keeps was in the buffer and is younger than the trail length |
| `TrailBuffer.KeptComplete` | client/src/pages/wand-tracker.tsx:122-124 | a prune drops no point that is still younger than the trail length |
| `TrailBuffer.KeptAppend` | client/src/pages/wand-tracker.tsx:122-124 | pruning distributes over concatenation, so the kept points stay in their original relative order |
| `TrailBuffer.KeptLater` | client/src/pages/wand-tracker.tsx:137-139 | pruning at one time and then at a later time equals a single prune at the later time, so a second prune at the same time changes nothing |
| `TrailBuffer.KeptDistinct` | client/src/pages/wand-tracker.tsx:122-124 | a prune of a buffer in which no point object occurs twice again has no point object twice |
| `TrailBuffer.SegmentBetween` | client/src/pages/wand-tracker.tsx:145-156 | a stroke runs from the first point to the second, its opacity lies between the two endpoint opacities (their mean), its line width is three times its opacity, and it is positive when both ends are visible |
| `TrailBuffer.Drawn` | client/src/pages/wand-tracker.tsx:144-163 | fewer than two points give no stroke, and n >= 2 points give at most n - 1 strokes |
| `TrailBuffer.DrawnSound` | client/src/pages/wand-tracker.tsx:144-162 | every stroke joins some consecutive pair (i-1, i) whose two opacities are both positive, uses the mean of those opacities, and has positive opacity |
| `TrailBuffer.DrawnAllPairs` | client/src/pages/wand-tracker.tsx:141-163 | when every point is younger than the trail length, there are exactly n - 1 strokes and stroke k joins points k and k+1 |
| `TrailBuffer.SegmentsBounded` | client/src/pages/wand-tracker.tsx:152-156 | with no point from the future, every stroke of a pruned buffer has opacity in (0, 1] and line width in (0, 3] |
| `Detection.Observe` | client/src/pages/wand-tracker.tsx:172-178 | the result holds no hand exactly when the hand list is empty; a tip is seen exactly when the first hand has landmark 8 and the canvas is mounted; the tip is landmark 8 scaled by the canvas width and height |
| `Detection.TipInsideCanvas` | client/src/pages/wand-tracker.tsx:176-178 | a fingertip with normalized coordinates in [0, 1] lands inside the canvas |
| `Detection.Step` | client/src/pages/wand-tracker.tsx:172-195 | the status light is on exactly when the tip is seen; a seen tip shows the indicator at the tip and records the time; anything else keeps the detection time and the position; visibility changes only when the tip is seen or when no hand is seen more than 500 ms after the last detection, and in that case the indicator is hidden |
| `Detection.GraceWindow` | client/src/pages/wand-tracker.tsx:188-194 | a run of results without a tip, all within 500 ms of the last detection, leaves the indicator exactly as it was |
| `Detection.StaysHidden` | client/src/pages/wand-tracker.tsx:185-194 | once hidden, the indicator stays hidden through any run of results without a tip |
| `Detection.HiddenAfterTimeout` | client/src/pages/wand-tracker.tsx:191-194 | after any run of results without a tip, a no-hand result more than 500 ms after the last detection hides the indicator |
| `Detection.LastDetectedKept` | client/src/pages/wand-tracker.tsx:181 | only a seen tip updates the recorded detection time |
| `Tracker.WandTracker.constructor` | client/src/pages/wand-tracker.tsx:44-55 | the buffer starts empty, the last detection time at 0, both status lights off and the indicator hidden at (0, 0) |
| `Tracker.WandTracker.Prune` | client/src/pages/wand-tracker.tsx:122-124 | the new buffer is `Kept` of the old one at the given time, every old point's age is recomputed at that time, and no point object occurs twice |
| `Tracker.WandTracker.AddTrailPoint` | client/src/pages/wand-tracker.tsx:115-125 | appends a fresh point created at t0 and prunes at t1; every old point's age is recomputed; the new point survives exactly when t1 - t0 is below the trail length; with 0 <= t1 - t0 < 1000 it ends the buffer; every retained point was already in the buffer or is the new one |
| `Tracker.WandTracker.DrawTrail` | client/src/pages/wand-tracker.tsx:128-166 | with fewer than two points the buffer and every age are unchanged and nothing is drawn; otherwise the buffer is pruned and the strokes are `Drawn` of the pruned buffer, which is exactly one stroke per consecutive pair, in order, when two or more points remain |
| `Tracker.WandTracker.Strokes` | client/src/pages/wand-tracker.tsx:141-163 | when every point's age was last recomputed at the draw time, the stroke loop returns exactly `Drawn` of the buffer: one stroke per consecutive pair whose ends both have positive opacity, in buffer order |
| `Tracker.WandTracker.ClearCanvas` | client/src/pages/wand-tracker.tsx:306-308 | the trail buffer is empty afterwards |
| `Tracker.WandTracker.OnResults` | client/src/pages/wand-tracker.tsx:169-196 | the model status is set; the detection state follows `Step` at t2 for a seen tip and at t0 otherwise; a seen tip pushes a fresh point at the scaled tip position (created at t0, pruned at t1); the old points' ages are recomputed at t1 and the new point's age is t1 - t0; any other result leaves the buffer unchanged and every age is unchanged |

## Left out

- Loading the MediaPipe scripts, constructing `Hands` and `Camera`, `getUserMedia`, and the `requestAnimationFrame` loop (`client/src/pages/wand-tracker.tsx:58-87`, `199-303`). These are browser I/O and calls into a foreign library. The frame loop only calls `drawTrail` with the clock, and the model takes the clock as a parameter.
- Canvas setup and resizing, stroke style, and the `ctx.*` drawing calls, including the `clearRect` calls in `drawTrail` and `clearCanvas`. These are rendering. `DrawTrail` returns the strokes it would draw instead.
- React state wiring, forwarding the sensitivity to the hand model, and the JSX. These are UI.
- The `useCallback` dependency lists, and so which trail length the live handlers see. `hands.onResults(onResults)` (`client/src/pages/wand-tracker.tsx:216`) and the `requestAnimationFrame(animate)` loop (`client/src/pages/wand-tracker.tsx:280`, started once at `:295`) are registered once, when the camera is enabled, and never re-registered. So `addTrailPoint` and `drawTrail` keep the `trailLength` captured at that moment (`client/src/pages/wand-tracker.tsx:121`, `:134`), and later moves of the slider (`client/src/pages/wand-tracker.tsx:389-394`) do not reach the live trail. The model passes the trail length to every call as the `trailSeconds` parameter, limited to the slider's range of 1 to 8. It therefore covers the source's behaviour, where that value is the same on every call, but it does not capture that the value stays frozen.
- `Tracker.WandTracker.OnResults`: a missing `multiHandLandmarks` field is modelled as an empty hand list. A landmark's `z` coordinate is not modelled because the code never reads it.
- IEEE floating-point rounding in the opacity and coordinate arithmetic. The model uses exact reals.
- `fix-assets.js` is a build script that renames files on disk. `client/src/App.tsx` only nests providers around the page. Neither has logic to model.
- Point smoothing, velocity gating, fingertip fallback, shape normalisation, template matching and gesture learning do not appear in the modelled source file. The only tip the code selects is the fixed landmark 8. These are not part of this model.
