# Hero frame scrubber, preloader and symbol decoder — a Dafny model

This project models the small amount of state logic in `App.tsx` of a
scroll-driven presentation site about Kazakh decorative textiles:

- **Frame URLs** (`frames.dfy`, module `Frames`): the 192 hero stills are
  addressed as `/frames/frame_NNNN.webp`, `NNNN` being the one-based frame
  ordinal zero-padded to four digits. `ParseFrameUrl` is the inverse of
  `FrameUrl`; both round trips are proved, and distinctness of the URLs
  follows.
- **Preloader** (`loader.dfy`, module `Preloader`): one run of the desktop
  preloader effect, a private counter fed by load and error events of its
  192 image handles in any order. Every event reports the new count as
  progress; from the 192nd on, readiness is signalled and frame 0 drawn.
- **Frame player** (`player.dfy`, module `FramePlayer`): the playhead is
  tweened linearly from 0 to `n - 1`; the draw routine rounds it with
  JavaScript's `Math.round` (`Floor(x + 0.5)`), caps it at `n - 1`, and
  paints the frame if the handle exists and passes the guard.
- **Symbol decoder** (`decoder.dfy`, module `SymbolDecoder`): the selection
  `Option<nat>` driven by key, mouse and focus events, the derived
  `aria-selected` flags, the detail panel variant and its cross-fade key.
- **Capability gate** (`gate.dfy`, module `CapabilityGate`): the inclusive
  768-pixel mobile breakpoint, the loading overlay, and the decision of the
  animation effect (nothing until loaded, nothing with reduced motion, frame
  scrubbing only on desktop with a stored, non-empty frame array).
- **Session** (`session.dfy`, module `Session`): the page-level flags across
  viewport resizes and completions of every preloader run started so far.

`optional.dfy` holds the `Option` type, standing for `null`/`undefined`.

Platform behaviour the model relies on: an HTML `img` element reports
`complete` both when it has loaded and when its load failed (it is then
"broken"), and the canvas `drawImage` call throws on a broken image.
Clocks, the network, the canvas, the DOM and the animation libraries are
not modelled: image completions arrive as events, the viewport width and
the reduced-motion preference are parameters, and a draw is the abstract
outcome `Drawn(k)`, `Rejected(k)` or `Skipped`.

### Behaviour worth knowing

- The draw routine repaints on every playhead update, also when the
  rounded index has not changed (`FramePlayer.RepaintsSameFrame`).
- The callbacks of an earlier preloader run are never invalidated: the
  cleanup of a run only drops the stored frame array, and the earlier
  run's handles keep completing and updating the shared progress and
  loaded flags (`Session.Step`). The loaded flag is never cleared, so
  returning from a mobile to a desktop viewport starts a fresh run with the
  overlay already hidden (`Session.DesktopAfterMobile`).
- Focus already selects an option, so pressing Enter on an option that has
  just received keyboard focus clears the selection again
  (`SymbolDecoder.FocusThenActivateClears`).

## Model

| member | source | states |
|---|---|---|
| `Frames.Ordinal` | App.tsx:171 | the ordinal of frame `i` is all digits, spells `i + 1`, and is exactly four characters long whenever `i + 1` has at most four digits |
| `Frames.PadStart` | App.tsx:171 | `padStart` leaves a string of at least the target width unchanged, otherwise prefixes fill characters up to the width and keeps the original as the suffix |
| `Frames.DecimalValue` | App.tsx:171 | the decimal rendering of `n` reads back as `n` |
| `Frames.FrameUrls` | App.tsx:168-172 | there are exactly 192 URLs, URL `i` parses back to `i`, and no two URLs are equal |
| `Frames.FrameUrlShape` | App.tsx:171 | the URL `Frames.FrameUrl(i)` is `/frames/frame_`, a four-character all-digit string whose value is `i + 1`, then `.webp` |
| `Frames.ParseFrameUrlRoundTrip` | App.tsx:169-172 | parsing the URL of frame `i` gives back `i` for every frame |
| `Frames.ParseFrameUrlCanonical` | App.tsx:169-172 | a string that parses to `i` names a frame and is exactly the URL of frame `i` |
| `Frames.FrameUrlInjective` | App.tsx:169-172 | two frames with the same URL are the same frame |
| `Preloader.Start` | App.tsx:210-211 | a run starts with a zero counter, no effects, and one pending handle per frame URL |
| `Preloader.OnFrameLoad` | App.tsx:213-217 | one load or error event raises the counter by exactly one, settles that frame with its outcome and no other, reports the new count as progress, and signals readiness exactly when the count has reached 192 |
| `Preloader.Feed` | App.tsx:235-241 | after any sequence of completions the counter has grown by their number, and earlier effects are kept as a prefix |
| `Preloader.StepReports` | App.tsx:213-217 | each callback adds one progress report carrying the new count and one readiness signal exactly when that count is at least 192 |
| `Preloader.ProgressCountsUp` | App.tsx:213-215 | in any order and with any mix of loads and errors, the progress reports are 1, 2, ..., n in call order |
| `Preloader.FeedReports` | App.tsx:213-215 | a run that starts from a zero counter and no reports reports exactly the counts 1 to n after n completions |
| `Preloader.ReadyCount` | App.tsx:216-217 | readiness is never signalled before the 192nd completion and is signalled once for each completion from then on, so once when every handle completes once |
| `Preloader.OrderIrrelevant` | App.tsx:213-217 | two completion sequences of the same length leave the same counter and the same effects, whatever their order or outcomes |
| `Preloader.SettledFrames` | App.tsx:235-240 | the settled handles are exactly those a completion arrived for, each with that completion's outcome |
| `Preloader.AllCompleted` | App.tsx:235-241 | when every handle has completed once, failures included, the counter is 192, no handle is pending and readiness was signalled exactly once |
| `FramePlayer.Lookup` | App.tsx:305 | reading index `k` yields a handle exactly when `k` is inside the array, and then the handle at `k`; outside it yields JavaScript's `undefined` |
| `FramePlayer.Paint` | App.tsx:307-308 | a skipped draw leaves the surface as it was, a draw shows its frame, and a rejected draw leaves the surface cleared by the `clearRect` that precedes the throwing paint |
| `FramePlayer.Round` | App.tsx:304 | `Math.round` returns the integer `k` with `k - 1/2 <= x < k + 1/2` |
| `FramePlayer.FrameIndexInRange` | App.tsx:301-305 | for the index `FramePlayer.FrameIndex` reads (`Math.min(Math.round(p), n - 1)`) and a playhead in `[0, n-1]` the selected index lies in `[0, n-1]`, equals the rounded playhead, is within half a frame of it, is 0 at 0 and `n - 1` at `n - 1` |
| `FramePlayer.SeekSelects` | App.tsx:315-318 | scroll progress `q` in `[0, 1]` selects frame `round(q * (n - 1))`: frame 0 at the start and frame `n - 1` at the end |
| `FramePlayer.FrameIndexMonotonic` | App.tsx:304-305 | a later playhead never selects an earlier frame |
| `FramePlayer.UpdateImageAsWritten` | App.tsx:303-310 | the routine as written skips only a missing or still-loading handle, paints a loaded frame, and reaches the painter with a failed one |
| `FramePlayer.UpdateImage` | App.tsx:303-310 | the corrected routine never reaches the painter with a failed frame and paints exactly when the selected handle exists and loaded |
| `FramePlayer.Scrub` | App.tsx:303-318 | running the corrected routine once per playhead update paints exactly on the updates whose selected frame loaded, and leaves the surface on the frame of the last such update, or unchanged when none paints |
| `FramePlayer.LastPaint` | App.tsx:303-318 | the position it returns is an update whose selected frame loaded with no such update after it, and there is none exactly when no update selects a loaded frame |
| `FramePlayer.AsWrittenRejectsFailedFrame` | App.tsx:306-308 | as written, a selected failed frame passes the guard, the paint throws, and the surface is left cleared |
| `FramePlayer.AsWrittenSkipLeavesSurface` | App.tsx:306-309 | as written, a missing or still-loading handle is skipped and the surface stays as it was |
| `FramePlayer.FailedFirstFrameExample` | App.tsx:312-313 | with frame 0 failed, the first draw at playhead 0 is rejected as written and skipped when corrected |
| `FramePlayer.GuardsAgreeOnDrawableFrames` | App.tsx:306 | the two guards decide alike except on failed frames, which the corrected guard skips |
| `FramePlayer.SkippedDrawLeavesSurface` | App.tsx:306-309 | with the corrected guard, when the selected handle is not a loaded frame, the surface is unchanged (as written, a failed frame clears it instead) |
| `FramePlayer.ScrubShowsLoaded` | App.tsx:315-318 | with the corrected routine, over any sequence of playhead updates the surface only ever shows frames that loaded |
| `FramePlayer.RepaintsSameFrame` | App.tsx:303-318 | the routine is called on every update; with the corrected guard, two updates selecting the same loaded frame paint twice and leave the surface as one update does (both guards agree on loaded frames) |
| `SymbolDecoder.Step` | App.tsx:1279-1283 | Enter or Space clears the selection exactly when the option was selected and selects it otherwise, any other key changes nothing, mouse entry or focus selects the option, mouse exit or blur clears the selection |
| `SymbolDecoder.PanelFor` | App.tsx:1333-1362 | the panel shows the prompt exactly when nothing is selected and the selected symbol exactly when the index is within the table, and that symbol is the one flagged selected |
| `SymbolDecoder.KeyFor` | App.tsx:1326 | the panel key is `'default'` exactly when nothing is selected |
| `SymbolDecoder.AtMostOneSelected` | App.tsx:1277 | at most one option is flagged `aria-selected`, and it is the selected index |
| `SymbolDecoder.KeyFollowsSelection` | App.tsx:1324-1330 | two selections give the same panel key exactly when they are equal, so every change cross-fades |
| `SymbolDecoder.ReplayInRange` | App.tsx:1272-1283 | events on the five listed options keep the selection inside the symbol table, so the panel never reads past it |
| `SymbolDecoder.ToggleTwice` | App.tsx:188-193 | from no selection, one activation selects the option and a second one clears it |
| `SymbolDecoder.SelectMoves` | App.tsx:1279-1283 | entering, focusing or activating option `j` while `i` is selected flags `j` and unflags `i` |
| `SymbolDecoder.FocusThenActivateClears` | App.tsx:1281-1283 | focus followed by Enter on the same option ends with no selection |
| `SymbolDecoder.LeaveClearsAny` | App.tsx:1280-1282 | mouse exit or blur on any option, selected or not, clears the selection and brings back the prompt |
| `CapabilityGate.AnimationInit` | App.tsx:252-294 | the animation starts exactly when loaded and reduced motion is off, waits exactly when not loaded, and sets up scrubbing exactly on desktop with a stored non-empty frame array |
| `CapabilityGate.BreakpointInclusive` | App.tsx:197 | for the viewport test `CapabilityGate.IsMobileWidth` (`innerWidth <= 768`), a 768-pixel viewport is mobile and a 769-pixel one is not |
| `CapabilityGate.ReducedMotionNeverAnimates` | App.tsx:260-261 | with reduced motion the effect never starts the animation |
| `Session.Preload` | App.tsx:204-249 | on mobile the effect creates no handles, drops the stored array and sets the loaded flag; on desktop it appends a fresh run, stores its frame array and leaves the loaded flag alone |
| `Session.MountAsWritten` | App.tsx:185-208 | the first render as written ends with the viewport's mobile flag, loaded exactly on mobile, and one full run started whatever the viewport |
| `Session.Mount` | App.tsx:196-208 | the corrected first render creates no run on mobile and is loaded at once there; on desktop it starts one run with zero progress and the overlay up |
| `Session.Step` | App.tsx:196-249 | no event clears the loaded flag; a resize sets the mobile flag from the width, keeps every earlier run and the displayed progress, and changes nothing when the flag is unchanged; a completion advances only its own run, shows that run's new count, sets the loaded flag exactly when it was set or that count has reached 192, and leaves the mobile flag and the stored array alone; a completion for no run changes nothing |
| `Session.MountValid` | App.tsx:182-208 | both first renders satisfy the page invariant: mobile implies loaded with no stored array, and while not loaded there is one stored run whose count is the displayed progress and below 192 |
| `Session.StepValid` | App.tsx:196-249 | every resize or completion keeps the page invariant and never clears the loaded flag |
| `Session.ReplayValid` | App.tsx:196-249 | any sequence of events keeps the page invariant and the loaded flag |
| `Session.OverlayShowsPartialProgress` | App.tsx:600-620 | while the overlay shows (`CapabilityGate.OverlayVisible`, `!isLoaded && !isMobile`, App.tsx:602), the viewport is desktop and the progress is below 192 |
| `Session.FirstRunStep` | App.tsx:213-217 | on a desktop page whose only run has seen `cs`, one more completion `c` gives the page of `cs + [c]`: the run advances, the new count is shown, and the loaded flag is set once that count reaches 192 |
| `Session.DesktopLoading` | App.tsx:210-217 | on desktop, after `n` completions of the first run in any order, the progress shown is `n` and the page is loaded exactly when `n` is at least 192 |
| `Session.DesktopReady` | App.tsx:216-217 | once every handle of the first run completed, failures included, the page is loaded, shows 192, hides the overlay, no handle is pending, and the animation starts with scrubbing |
| `Session.MobileMount` | App.tsx:204-208 | on a mobile viewport the corrected first render creates no handles and is loaded, while the render as written still creates a full run of 192 handles |
| `Session.DesktopMountsAgree` | App.tsx:185-208 | on a desktop viewport the render as written and the corrected render coincide |
| `Session.ResizeToMobile` | App.tsx:196-208 | resizing a valid page to a mobile viewport leaves it loaded and mobile with no stored array, so the animation effect on the resulting page never sets up the scrubber |
| `Session.DesktopAfterMobile` | App.tsx:204-249 | returning to desktop from mobile starts a fresh run whose handles are all pending and stores it, with the page already loaded and the overlay hidden, so the animation effect sets up the scrubber over frames that have not arrived |

## Findings

| source | as written | input that shows it | evidently intended | confidence | as-written member | corrected member |
|---|---|---|---|---|---|---|
| App.tsx:306 | the draw guard `img && img.complete` also admits a failed ("broken") image, because `complete` is true for it; the routine then clears the surface and `drawImage` throws | frames `[Failed, Loaded]` at playhead 0, the first draw of the scrubber (App.tsx:313), shown by `FramePlayer.FailedFirstFrameExample`; the throw escapes to the setup's `catch`, so the rest of the animation setup is skipped | a failed frame is skipped and the surface left as it was | not executed; medium (rests on the HTML definitions of `complete` and `drawImage`) | `FramePlayer.UpdateImageAsWritten` | `FramePlayer.UpdateImage` |
| App.tsx:185 | the mobile flag starts `false`, so the first run of the preloader effect (App.tsx:204-241) creates all 192 image handles before the viewport check's update re-runs it on a phone | first render with a 500-pixel-wide viewport, shown by `Session.MobileMount` | the preloader, marked desktop only, creates no handles on a mobile viewport | not executed; medium (rests on React running a commit's effects with that render's state) | `Session.MountAsWritten` | `Session.Mount` |

## Left out

- Smooth scrolling, the scroll-trigger pin, scrub and snap configuration, the easing curves and the reveal timelines (App.tsx:263-534): they are declarative calls into third-party animation libraries whose semantics are not part of this model. The playhead is taken as the linear tween's value; scrub smoothing and snapping to 0, 0.35, 0.70 and 1 are not modelled.
- Canvas sizing, the device-pixel-ratio cap of 2 and the actual `clearRect`/`drawImage` pixel work (App.tsx:219-230, 295-299): a draw is the abstract outcome `Drawn`, `Rejected` or `Skipped`.
- Preloader.OnFrameLoad: the first-frame draw on readiness is recorded as the effect `DrawFirstFrame` whenever the count reaches 192, also when no canvas is mounted. The canvas exists only on a desktop viewport (App.tsx:639), so for a run that completes on a phone (the first run of `Session.MountAsWritten`, or a run that outlives a switch to mobile) the source skips the draw at App.tsx:220 while the model still records it. The outcome of the draw is not modelled either; like the scrubber's draw it is not guarded against a failed frame 0.
- Floating point: the playhead and scroll progress are real numbers, so `Math.round`'s behaviour at values just below one half in binary floating point is not modelled.
- The dynamic imports of the animation libraries and the development-only warning on failure (App.tsx:535-541), the effect cleanups (App.tsx:246-248, 546-550) beyond dropping the stored frame array, and the resize listener's registration: lifecycle plumbing.
- React's development-only strict mode (index.tsx:8): in development it mounts every effect twice, so the first render starts two preloader runs; the model follows a production build, with one mount.
- The static content tables and all markup and transition settings; only the number of symbols (five) is used.
- components/UI.tsx, components/YurtSVG.tsx, components/hud/HUDOverlay.tsx, components/hud/CyberFrame.tsx, vite.config.ts and index.tsx are not part of this model: icons, decorative graphics, build configuration and bootstrapping.
