# Hero video sequencer of the Zentry landing page, in Dafny

The landing page's Hero section plays a carousel of `totalVideos` hero videos
(four on the page). The part of it that holds state is modelled and proved here:

- **The playback cursor.** `currentIndex` starts at 1. A click on the preview
  (`handleMiniClick`) sets `hasClicked` and moves the cursor to its circular
  successor `(i % N) + 1`. The preview shows `upcomingVideoIndex`, the same
  successor of the current index.
- **The preload pass of `useVideoPool`.** On mount, `loadVideos` tries the
  videos 1..N one after the other. Each success stores an object URL in a
  local `pool` and adds one to `loadedCount`. Each failure is logged, and the
  loop goes on. The pool is published into `videoPool` once, after the last
  try. `getVideoSource(i)` reads `videoPool[i]`, which may be absent.
- **The loading flag.** `isLoading` starts true. The effect on `loadedCount`
  clears it once the count reaches N, and nothing sets it again.

Files:

- `cursor.dfy` (module `Cursor`) covers the arithmetic. It models JavaScript's
  truncating `%`, the successor, and the cursor after k clicks. Lemmas prove
  the closed form and that the cursor returns to its start exactly after a
  multiple of N clicks.
- `preload.dfy` (module `Preload`) holds the pure specification of one
  preload pass. The fetch → blob → object-URL chain of index `i` is an oracle
  `attempt(i)` that returns either `Loaded(url)` or `Failed`. `PoolAfter`,
  `SuccessCount` and `FailedIndices` give the pool, the count and the
  failure reports after the first k tries. Lemmas prove what these contain.
- `hero.dfy` (module `HeroSection`) holds the class `Hero`. Its fields are
  `currentIndex`, `hasClicked`, `isLoading`, `loadedCount` and `videoPool`.
  Ghost fields count the clicks and record the requests made and the
  failures logged. Its object invariant `Valid()` says:
  - the cursor is in 1..N and equals the start advanced by the number of clicks;
  - `isLoading` holds exactly while `loadedCount < N`;
  - the published pool has one entry per counted video, under keys in 1..N.

  The constructor establishes `Valid()`, and `HandleMiniClick` and
  `LoadVideos` keep it. `AttemptLoad` (one loop step) and `PreloadLoop` (the
  loop) are steps inside `LoadVideos` and do not keep it: inside the pass
  the count runs ahead of the pool, which is published only at the end.
  `LoadingEffect` is called from the loop step and states only how it
  changes the flag.

React's state setters and effects are modelled as sequential field updates.
Each effect runs right after the state it depends on changes. The page fixes
N = 4. The model takes any N ≥ 1 as the constructor's argument, and
`FourVideoCycle` proves the cycle for the four-video instance.

## Model

| member | source | states |
|---|---|---|
| Cursor.JsRemainder | src/components/Hero.jsx:68 | JavaScript `%` with a positive divisor: the result has the dividend's sign and is smaller than the divisor in magnitude |
| Cursor.JsRemainderCongruent | src/components/Hero.jsx:68 | the JavaScript remainder differs from the dividend by a multiple of the divisor |
| Cursor.Successor | src/components/Hero.jsx:68 | for i in 1..N, `(i % N) + 1` is in 1..N; it is i+1 when i < N and wraps N to 1 |
| Cursor.Advance | src/components/Hero.jsx:70-73 | the cursor after k clicks stays in 1..N when it starts there |
| Cursor.AdvanceClosedForm | src/components/Hero.jsx:72 | after k clicks from i the cursor is `(i - 1 + k) mod N + 1` |
| Cursor.AdvanceReturnsIff | src/components/Hero.jsx:72 | the cursor is back at its start exactly when the number of clicks is a multiple of N: N clicks return it and no fewer do |
| Cursor.FourVideoCycle | src/components/Hero.jsx:49-72 | with four videos, clicks from video 1 show 2, 3, 4, then 1 |
| Preload.PoolAfter | src/components/Hero.jsx:17-24 | the loop's local `pool` after k tries; its keys are tries already made, in 1..k (PoolHoldsLoaded states exactly which keys and values) |
| Preload.FailedIndices | src/components/Hero.jsx:27 | the `console.error` reports after k tries, at most one per try (FailuresReported states exactly which, and their order) |
| Preload.SuccessCount | src/components/Hero.jsx:25 | the loaded count after k tries is at most k |
| Preload.PoolHoldsLoaded | src/components/Hero.jsx:17-31 | the pool's keys are exactly the indices in 1..k whose load succeeded, each under the URL that load produced |
| Preload.FailuresReported | src/components/Hero.jsx:19-28 | failures are reported in ascending order, and they are exactly the failed indices in 1..k |
| Preload.PoolSizeIsCount | src/components/Hero.jsx:17-31 | the pool has as many entries as the loaded count |
| Preload.TriesArePartitioned | src/components/Hero.jsx:19-29 | every try is either counted as loaded or reported as failed |
| Preload.AllLoadedIff | src/components/Hero.jsx:19-29 | the count reaches the number of tries if and only if every try loaded |
| Preload.SingleFailure | src/components/Hero.jsx:19-31 | when only index f fails, the pool holds every other index in 1..N, the count is N-1, and f is the only index reported |
| HeroSection.Hero.constructor | src/components/Hero.jsx:12-51 | on mount the count is 0 and the pool is empty (lines 12-13), and the cursor is 1, nothing has been clicked and the page is loading (lines 49-51); the invariant holds |
| HeroSection.Hero.GetVideoSource | src/components/Hero.jsx:64-66 | the lookup is absent for every index until the pool is published; when present, the index is in 1..N and the value is the pool's URL |
| HeroSection.Hero.UpcomingVideoIndex | src/components/Hero.jsx:68 | the preview index is in 1..N and is where the next click moves the cursor; it differs from the current index exactly when N > 1 |
| HeroSection.Hero.HandleMiniClick | src/components/Hero.jsx:70-73 | a click sets `hasClicked` and moves the cursor to its successor; the pool, the count and the loading flag are unchanged |
| HeroSection.Hero.LoadingEffect | src/components/Hero.jsx:121-125 | the loading flag is cleared when the count is at least N; otherwise it is kept, and it is never set back to true |
| HeroSection.Hero.AttemptLoad | src/components/Hero.jsx:20-28 | a success stores the URL under i and adds exactly 1 to the count; a failure leaves the pool and the count unchanged and logs i; either way i is requested |
| HeroSection.Hero.PreloadLoop | src/components/Hero.jsx:19-29 | indices 1..N are requested in ascending order; the local pool, the count and the failure log end as PoolAfter, SuccessCount and FailedIndices of N; `videoPool` is outside the loop's frame |
| HeroSection.Hero.LoadVideos | src/components/Hero.jsx:16-31 | after the pass, the published pool is PoolAfter of N and the count is SuccessCount of N; the overlay stays exactly when some index failed; the invariant holds |

## Left out

- Fetching, `response.blob()`, `URL.createObjectURL` and `console.error` (Hero.jsx:21-27) are browser I/O. They are replaced by the oracle `attempt`. The console is recorded as the ghost failure log, and the requests as the ghost request log.
- The oracle `attempt` is unconstrained, so it covers the fact that the code never checks `response.ok` (Hero.jsx:21-24). `fetch` rejects only on network errors, so an HTTP error response such as a 404 still becomes a blob and counts as loaded. Only a rejected promise makes an index fail.
- The preload pass runs atomically in the model. In the page, every render between the awaits (Hero.jsx:21-22) sees `loadedCount > 0` while `videoPool` is still `{}` until Hero.jsx:31. So the invariant clause "the published pool has one entry per counted video" holds at the model's method boundaries, not in every state the component passes through during the pass.
- The revoke cleanup (Hero.jsx:37-41) calls `URL.revokeObjectURL`, a foreign function. As written, it closes over the first render's `videoPool`, which is `{}`, so it revokes nothing. No release of object URLs is modelled.
- The GSAP animations (Hero.jsx:75-119) are left out. They involve timelines, easing, clip-path polygons, scroll scrubbing, the floating-point `currentTime + 0.038`, and the `#t=` URL fragment. The only link to the model is that the transition animation runs only when `hasClicked` holds. The model keeps that flag but not the animation.
- React scheduling is not modelled: asynchronous effects, batching of state setters, and effect re-runs (including a second effect run in development mode). `LoadVideos` requires that the preload pass has not run yet, because the effect has an empty dependency list and runs once after mount.
- JSX rendering (Hero.jsx:127-182) is not modelled.
- `getVideoSrc`'s path template (Hero.jsx:57-59) is not modelled. Requests are recorded by index.
- `gsap.registerPlugin` (Hero.jsx:9) is not modelled.
- `Footer.jsx` is static markup over a fixed list of four links. It has no state and is not part of this model.
- Totals N < 1 are outside the model. The page fixes N = 4, and JavaScript's `x % 0` would give NaN.
- The pool is sometimes described as filled incrementally, as fetches complete. The code fills a local object and publishes it once, after the loop (Hero.jsx:31). The model follows the code.
