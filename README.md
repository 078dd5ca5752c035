# rec-cube: ghost replay, gaze projections, floor traces and the game store

This project models, in Dafny, the logic of the first prototype of rec-cube, a
first-person exploration game in cubic rooms. The previous room's recorded
movement and gaze are replayed in the current room as "haunting" artifacts.
Four pieces of that prototype are modelled:

- **Phantom** (`phantom.dfy`): the ghost that replays the previous room's
  movement. Each frame its playback clock is `now - roomStartTime`. It finds
  the first recorded sample later than that clock. It is shown at the first
  sample, or at the point linearly interpolated between the two samples that
  bracket the clock. Once no sample is later, it is hidden at the last sample.
  The decision is the pure function `GhostFrame`. The search is the recursive
  function `FindLater` and the while-loop method `FindLaterIndex`, which
  returns -1 like `findIndex`. The mesh the callback updates in place is the
  class `GhostMesh`.
- **LogProjection** (`log_projection.dfy`): the floating text made from gaze
  points. A list of more than 20 points is thinned to the points whose index is
  a multiple of `ceil(n / 20)`. Each kept point becomes a projection keyed by
  its position in the thinned list. Its font size is `0.2 + floor * 0.05`, and
  it is pulled 5% of the way towards the look-at point (0, 1.7, 0).
- **GameStore** (`game_store.dfy`): the store holding `floor` (starts at 1,
  `nextFloor` adds one) and `isPointerLocked` (set by `setIsPointerLocked`).
  It is the class `Store`. The value-level `State`, `Apply` and `Run` are used
  to state facts about any sequence of actions.
- **Traces** (`traces.dfy`): the layout effect that writes one flat marker per
  recorded movement sample into an instanced mesh's buffer (an `array`). Each
  marker sits at height 0.02 and lies flat. As written, the code reads x and
  z from the wrong place (see "## Findings"). `TraceAt`, `TracePlacements`,
  `TraceMesh.Layout` and `Mount` model the corrected reading, which copies x
  and z from the sample's `pos`.

`geometry.dfy` holds the point type and `lerp`, `move_logs.dfy` the recorded
movement sample, and `wrappers.dfy` holds `Option`.

Times and coordinates are `real`. `THREE.MathUtils.lerp(a, b, t)` is taken as
`a + (b - a) * t`, which over the reals equals three.js's `(1 - t) * a + t * b`.
The wall clock (`Date.now()`) is the parameter `now`. Whether `meshRef.current`
is set is the parameter `mounted`.

Behaviours of the code worth stating:

- The code never divides by zero and does not clamp `alpha`. `Bracket` shows
  why neither is needed: the found bracket always satisfies
  `prev.time <= t < next.time`, so the denominator is positive and `alpha`
  lies in [0, 1).
- A recording of a single sample is shown at that sample before its time and
  hidden there from then on (`GhostFrame`).
- When samples share the playback time, no earlier sample is later than it,
  and the next sample is later, the ghost stands visible at the last of the
  shared samples (`AtLastSampleOfItsTime`). When no sample is later than the
  playback time, the ghost is hidden at the last sample (`GhostFrame`). So at the first sample's time
  the ghost stands at the first sample's position when the second one is
  strictly later or there is no second one (`AtOrBeforeFirstSample`).
- For sorted logs only, a playback time at or past the last sample hides the
  ghost there (`SortedEndHidden`). For unsorted logs the ghost is visible
  whenever any sample is later (`GhostFrame`).
- Phantom.jsx line 49 reads `previousMoveLogs.length` without checking the
  array exists, so a missing array throws a `TypeError` at render
  (`GhostRender`). Traces and LogProjection do check: Traces then renders nothing and
  LogProjection an empty group.
  The store in `src/stores/useGameStore.js` defines neither
  `previousMoveLogs`, `previousGazeLogs` nor `roomStartTime`, so the model
  takes the logs and the room start time as parameters.

## Model

| member | source | states |
|---|---|---|
| Geometry.LerpBetween | src/components/Phantom.jsx:40-44 | for a fraction in [0, 1], the lerp of two coordinates lies between them |
| Geometry.Lerp | src/components/Phantom.jsx:41-43 | `THREE.MathUtils.lerp`: a fraction of 0 gives the start, 1 the end; between them `LerpBetween` |
| Geometry.LerpVec | src/components/LogProjection.jsx:31 | `Vector3.lerp` coordinate by coordinate: a fraction of 0 gives the start point, 1 the target; the remaining offset is `LerpVecRemaining` |
| Geometry.LerpVecRemaining | src/components/LogProjection.jsx:29-31 | after moving a fraction t towards a target, the remaining offset is (1 - t) times the original one |
| Phantom.FindLater | src/components/Phantom.jsx:17 | `findIndex`: the result, when present, is an index whose time is later than t, with every earlier sample not later; when absent, no sample is later than t; no ordering of the logs is assumed |
| Phantom.FindLaterIndex | src/components/Phantom.jsx:17 | the while-loop search returns -1 exactly when `FindLater` finds nothing and otherwise the same index |
| Phantom.FindLaterIsFirst | src/components/Phantom.jsx:17 | any index later than t with no later sample before it is the one the search returns |
| Phantom.FindLaterNone | src/components/Phantom.jsx:17-19 | if no sample is later than t the search returns nothing (the -1 case) |
| Phantom.Alpha | src/components/Phantom.jsx:38 | inside the bracket `prev.time <= t < next.time` the fraction lies in [0, 1), and it is 0 at `t == prev.time` |
| Phantom.GhostFrame | src/components/Phantom.jsx:11-47 | no update exactly when the mesh is missing or there are no logs; otherwise the ghost is visible exactly when some sample is later than `now - roomStartTime`, hidden only at the last sample, and shown at the first sample when that one is still ahead |
| Phantom.GhostRender | src/components/Phantom.jsx:49 | a missing log array throws a `TypeError`; an empty one renders nothing and no frame updates anything; otherwise the ghost renders and every frame on its mounted mesh places it |
| Phantom.PlaybackTime | src/components/Phantom.jsx:14 | the replay clock is the time elapsed since the room start: start plus clock is now |
| Phantom.Interpolate | src/components/Phantom.jsx:34-44 | per-coordinate lerp between the bracketing samples: inside the bracket each coordinate lies between theirs, and it is the earlier sample at its time; tied to the frame by `InterpolatedBetween` |
| Phantom.AtLastSampleOfItsTime | src/components/Phantom.jsx:17-46 | when sample k is at the playback time, no sample up to k is later, and the next sample is later, the ghost stands visible at sample k |
| Phantom.Bracket | src/components/Phantom.jsx:17-38 | in the interpolating case `prev.time <= t < next.time`, so the denominator is positive and alpha lies in [0, 1), for unsorted logs too |
| Phantom.InterpolatedBetween | src/components/Phantom.jsx:34-46 | in the interpolating case the ghost is visible, each coordinate lies between those of the bracketing samples, and it equals the earlier sample when t equals its time |
| Phantom.SortedEndHidden | src/components/Phantom.jsx:19-24 | for time-ordered logs, once the playback time reaches the last sample the ghost is hidden at the last sample |
| Phantom.AtOrBeforeFirstSample | src/components/Phantom.jsx:17-44 | at or before the first sample's time the ghost stands at the first sample (shown or hidden), provided the second sample, if there is one, is strictly later |
| Phantom.DuplicateStartTime | src/components/Phantom.jsx:17-38 | two samples at time 0 followed by one at 10 ms, played at 0, put the visible ghost at the second sample, not the first |
| Phantom.Midpoint | src/components/Phantom.jsx:34-46 | samples [0,0,0] at 0 ms and [10,0,0] at 1000 ms, played at 500 ms, put the visible ghost at [5,0,0] |
| Phantom.GhostMesh.constructor | src/components/Phantom.jsx:54-65 | a freshly mounted mesh stands at the origin and is visible |
| Phantom.GhostMesh.OnFrame | src/components/Phantom.jsx:11-47 | the frame callback leaves the mesh alone with no logs and otherwise sets its position and visibility to what `GhostFrame` prescribes |
| LogProjection.Stride | src/components/LogProjection.jsx:20 | `ceil(n / 20)`: positive for n > 0, and the least k with n <= 20 k |
| LogProjection.KeepMultiples | src/components/LogProjection.jsx:20 | the `filter` on `i % k === 0`: never longer than what remains, and it starts with the current point when that index is a multiple; its exact content is `KeepMultiplesAt` and `KeepMultiplesLength` |
| LogProjection.Thin | src/components/LogProjection.jsx:19-21 | the thinned list is never longer than the input and keeps the first point; its full property is `ThinSpec` |
| LogProjection.SkipGap | src/components/LogProjection.jsx:20 | the filter keeps nothing strictly between two consecutive multiples of the stride |
| LogProjection.KeepMultiplesStep | src/components/LogProjection.jsx:20 | at a multiple of the stride the point is kept and the next kept candidate is one stride further |
| LogProjection.KeepMultiplesAt | src/components/LogProjection.jsx:20 | kept point j is the input point at index j times the stride, so the order is preserved |
| LogProjection.KeepMultiplesLength | src/components/LogProjection.jsx:20 | the kept points reach every multiple of the stride below n and none beyond it |
| LogProjection.ThinLong | src/components/LogProjection.jsx:19-21 | thinning more than 20 points keeps at most 20, namely the points at the multiples of the stride, in order |
| LogProjection.ThinKeepsEveryMultiple | src/components/LogProjection.jsx:19-21 | every point whose index is a multiple of the stride is kept, at position index / stride |
| LogProjection.ThinSpec | src/components/LogProjection.jsx:19-21 | at most 20 points remain; none are dropped from up to 20; beyond 20, exactly the points at multiples of the stride remain in order; the first point is always kept |
| LogProjection.Projections | src/components/LogProjection.jsx:15-35 | missing or empty gaze logs give no projections; otherwise there is one per thinned point (never more than 20), projection i has key i, the common size `0.2 + floor * 0.05`, faces (0, 1.7, 0) and stands at its point pulled towards it |
| LogProjection.FontSize | src/components/LogProjection.jsx:28 | `0.2 + floor * 0.05`: at least 0.25 from floor 1 on; its growth is `FontSizeIncreasing` |
| LogProjection.PullTowardLookAt | src/components/LogProjection.jsx:29-31 | `pos.lerp(lookAt, 0.05)`: the look-at point stays put and every other point moves; how far is `PullIsFivePercent` |
| LogProjection.FontSizeIncreasing | src/components/LogProjection.jsx:28 | the projection size strictly increases with the floor |
| LogProjection.PullIsFivePercent | src/components/LogProjection.jsx:29-31 | each projection closes 5% of its point's offset to (0, 1.7, 0): 95% of the offset remains |
| GameStore.Apply | src/stores/useGameStore.js:6-10 | one action raises the floor by 1 exactly when it is `nextFloor`, and otherwise leaves it |
| GameStore.Run | src/stores/useGameStore.js:6-10 | performing actions in order never lowers the floor and raises it by at most one per action; the exact count is `RunFloor` |
| GameStore.RunFloor | src/stores/useGameStore.js:6-10 | after any sequence of actions the floor has grown by exactly the number of `nextFloor` actions in it |
| GameStore.FloorNeverDecreases | src/stores/useGameStore.js:9-10 | along any sequence of actions the floor never decreases |
| GameStore.FloorAtLeastOne | src/stores/useGameStore.js:9-10 | from the initial store the floor is at least 1 after any sequence of actions |
| GameStore.FloorsFromStart | src/stores/useGameStore.js:5-10 | after N `nextFloor` calls from the start the floor is 1 + N and the pointer is still unlocked |
| GameStore.Store.constructor | src/stores/useGameStore.js:3-11 | the store starts on floor 1 with the pointer unlocked |
| GameStore.Store.NextFloor | src/stores/useGameStore.js:10 | `nextFloor` raises the floor by exactly 1 and leaves the lock flag unchanged |
| GameStore.Store.SetIsPointerLocked | src/stores/useGameStore.js:6 | `setIsPointerLocked(b)` sets the flag to b and leaves the floor unchanged |
| Traces.TraceXZAsWritten | src/components/Traces.jsx:18 | as written, `pos[0]` and `pos[2]` of a `{pos, time}` record are undefined, so x is NaN and z is 0 (`Vector3.set` keeps the current z), whatever the sample's x and z |
| Traces.TraceAt | src/components/Traces.jsx:18-20 | corrected: a marker copies x and z of the sample's position, has y = 0.02 and lies flat |
| Traces.MarkerPositionLost | src/components/Traces.jsx:15-18 | for a sample at [3, 1, 4] the as-written marker has x NaN and z 0, the corrected one is at [3, 0.02, 4] |
| Traces.TracePlacements | src/components/Traces.jsx:15-25 | one placement per log; placement i copies x and z of log i, has y = 0.02 and lies flat |
| Traces.InstanceCount | src/components/Traces.jsx:31-36 | nothing is rendered for missing or empty logs; otherwise the instanced mesh has exactly one slot per log |
| Traces.TraceMesh.constructor | src/components/Traces.jsx:34-37 | the instanced mesh has the requested number of slots and no pending upload |
| Traces.TraceMesh.Layout | src/components/Traces.jsx:10-28 | with no logs nothing is written; otherwise every slot i is written from log i as `TracePlacements` says, and an upload is requested |
| Traces.Mount | src/components/Traces.jsx:10-37 | rendering and then laying out gives no mesh for empty logs, and otherwise a fresh mesh with one slot per log, every slot written from its log |

## Findings

| source | as written | input that shows it | evidently intended | confidence | as-written member | corrected member |
|---|---|---|---|---|---|---|
| src/components/Traces.jsx:15-18 | reads each element of `previousMoveLogs` as an `[x, y, z]` triple (`pos[0]`, `pos[2]`), while Phantom.jsx:17-38 reads the same array as `{pos, time}` records | the sample `{pos: [3, 1, 4], time: 0}`: `pos[0]` and `pos[2]` are undefined, so x is NaN and z is 0 | read the record's position (`log.pos[0]`, `log.pos[2]`); the records carry the times the replay needs | medium, not executed | Traces.TraceXZAsWritten | Traces.TraceAt |

## Left out

- Floating-point semantics: times and coordinates are exact reals, so rounding in `lerp`, in `0.2 + floor * 0.05` and in `Math.ceil(n / 20)` is not modelled. The floor counter is an unbounded integer, so `state.floor + 1` (src/stores/useGameStore.js:10) ceasing to change past 2^53 is not modelled either.
- The `THREE.Object3D` matrix composition in Traces (src/components/Traces.jsx:21-23): a placement records a position and the fixed orientation "rotated by -π/2 about x", not a 4x4 matrix. The reuse of one temporary object is not modelled.
- The wireframe overlay, materials and geometry sizes in Phantom and Traces (src/components/Phantom.jsx:51-71, src/components/Traces.jsx:33-46): these are rendering only.
- The random message and colour choice, the `toFixed` text and the `<Text>` rendering in LogProjection (src/components/LogProjection.jsx:24-26, src/components/LogProjection.jsx:37-54): these are random or presentation only. A projection keeps its position, size, look-at point and key.
- `useMemo`/`useFrame`/`useLayoutEffect` scheduling and Zustand's subscriptions: each callback body is modelled as one call, with its inputs as parameters.
- `Date.now()`: the current time is the parameter `now`.
- Phantom.GhostFrame: takes the logs as present. A missing array never reaches the frame callback, because the render at Phantom.jsx:49 already throws (`GhostRender`).
- Phantom.GhostMesh.OnFrame: models the callback on a mounted mesh. The missing-mesh early return is covered by the `mounted` parameter of `GhostFrame`.
- Traces.TraceXZAsWritten: three.js is not part of this model. The as-written z of 0 relies on `Vector3.set(x, y, z)` keeping the current z when `z` is `undefined`, and the NaN x on the matrix write turning `undefined` into NaN.
- Traces.TraceMesh.Layout: requires the buffer to have one slot per log. The component always creates the mesh with `previousMoveLogs.length` slots, and `Mount` models that pairing.
- src/utils/AudioSynth.js, src/components/Player.jsx, src/components/Eyes.jsx, src/components/Level.jsx, src/App.jsx and src/components/UI.jsx are not part of this model. They hold audio I/O, physics and camera geometry, library transforms, static scene geometry and UI wiring.
