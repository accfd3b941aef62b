# nova-lights animation engine, in Dafny

A model of the animation engine of `code.py` in nova-lights. The program runs on
a microcontroller and drives three NeoPixel lights: a 16-pixel ring at the top,
an 8-pixel RGBW jewel in the middle and a 16-pixel ring at the bottom. The model
keeps the program's own structure, one module per part:

- `Colors` (colors.dfy): the colour constants as four 8-bit channels.
  - Colour comparison limited to a strip's bits per pixel (`bpp`).
  - `count_pixels_colored`.
- `ColorPlan` (colorplan.dfy): `prep_hour` and its hour-period table.
  - Given hour, minute and second, it picks the primary and secondary colours,
    the hold time and the fill fraction.
  - It walks the table in wrapped pairs and tries its branches in priority
    order: quarter-hour pulse, final handoff, 55-59 ramp, steady state.
- `Strip` (strip.dfy): the `NovaStar` state and `tick`.
  - Each pixel's countdown drops by the elapsed time.
  - Pixels whose countdowns run out take their next colour and hold time.
  - The tick reports whether it pushed the buffer (`show()`) and may advance
    the cycle index.
- `Crossfade` (crossfade.dfy): `cycle_between`, the wipe.
  - Each call converts one more pixel from `colors[cycle_index]` to its
    successor.
  - The call that converts the last pixel holds the new colour for the pause
    duration and moves the cycle on.
- `Band` (band.dfy): `chase`.
  - It reads back the band of secondary-coloured pixels, or seeds it as
    `sections` runs when there is none or nothing else.
  - It rotates the band by one step in a randomly drawn direction.
- `Shuffle` (shuffle.dfy): `random_color_sort`.
  - Each light gets its nine colours ordered by one random key per colour.
- `Orchestrator` (orchestrator.dfy): one pass of the main loop.
  - It computes the transition and Friday flags and updates the random cycles.
  - It sends every light to `turn_off`, a crossfade or its role's default
    animation.

Everything is pure: each operation takes a `StripState` (or the whole `Engine`)
and returns a new one together with the refresh flag.

The clock and the random generator become parameters:
- Each tick gets its two `time.monotonic()` readings.
- `prep_hour` gets the value `random_duration()` returns.
- The loop gets a `Draws` record holding every `random.uniform` and
  `random.random` value one pass uses.

Three consequences of `code.py` as written, each proved:

- **Wipe length.** Wiping 16 BLUE pixels to RED takes 16 calls, one pixel per call.
  - Fifteen calls leave one BLUE pixel.
  - The sixteenth paints it and moves the cycle index to RED (`Crossfade.BlueToRed`).
  - Because of the `num_on < num_pixels - 1` test, that sixteenth call ticks the
    all-new-colour pause frame, so the last pixel holds for the pause duration.
- **Seeded band size.** The chase seeds runs `range(a, a + size - 1)`, one pixel short of `size`.
  - On a 16-pixel ring at 25% with two sections, the seeded band is the six pixels
    {0, 1, 2, 8, 9, 10} (`Band.SixteenPixelSeed`).
- **Reshuffling.** During a transition the palettes are reshuffled on every pass of the loop
  (`Orchestrator.TransitionReshuffles`).

## Model

| member | source | states |
|---|---|---|
| Colors.SameOn | code.py:94 | comparing `a[:bpp]` with `b[:bpp]` is exact equality when bpp is at least 4, and compares the first three, two or one channels when bpp is 3, 2 or 1; equal colours always match |
| Colors.CountColored | code.py:91-97 | the number of pixels matching a colour never exceeds the pixel count |
| Colors.CountNone | code.py:91-97 | the count is 0 exactly when no pixel matches |
| Colors.CountAll | code.py:91-97 | the count equals the pixel count exactly when every pixel matches |
| Colors.CountIsMatchingSize | code.py:91-97 | the count is the size of the set of matching indices, which is the set `chase` reads back |
| ColorPlan.FindWindowFrom | code.py:204-206 | the search finds the first wrapped pair (period, next period) whose window holds the hour; it reports none exactly when no pair from the start index on holds it |
| ColorPlan.Resolve | code.py:203-219 | the branches in priority order: no window gives (OFF, OFF, 1.0, 1.0); a quarter-hour pulse gives fill 0.75; in the hour before the next period, the handoff (next colour over current, 0.01, 0.5) and then the ramp (fill (minute-55)/5); otherwise the steady state with fill 0.25; fill stays in [0, 1] for minutes up to 59 |
| ColorPlan.WindowsPartition | code.py:204-206 | for any table with increasing starts, some window holds an hour exactly when it lies between the first and last start, and then exactly one window holds it |
| ColorPlan.HourPeriodsIncreasing | code.py:51-61 | the program's period starts strictly increase |
| ColorPlan.HoursCovered | code.py:203-219 | every hour in [7, 21) lies in exactly one window; any other hour lies in none and resolves to the all-off plan |
| ColorPlan.PrepHour | code.py:203-219 | on the program's table, an hour outside [7, 21) gives the all-off plan; any hour inside gives a plan with some colour on; the fill stays in [0, 1] |
| ColorPlan.DarkExactlyAtNight | code.py:203-219 | the plan has both colours OFF if and only if the hour is outside [7, 21) |
| ColorPlan.SteadyMorning | code.py:207-215 | `prep_hour(8, 10, 1)` is (BLUE, OFF, d, 0.25) |
| ColorPlan.HandoffToWork | code.py:209-211 | `prep_hour(8, 59, 52)` is (MINT, BLUE, 0.01, 0.5) |
| Strip.Init | code.py:74-83 | a new strip is all OFF with every countdown 1, cycle index 0 and no cycle; pause is twice the fade duration; n times the step duration is the fade duration |
| Strip.TurnOff | code.py:85-89 | every pixel becomes OFF, the buffer is always pushed, nothing else changes |
| Strip.OrDefault | code.py:100-101 | `x or default`: an absent duration or 0.0 falls back to the default, any other value is kept |
| Strip.Modulus | code.py:140 | `len(cycle_colors) or 1`: the cycle length, or 1 for an empty cycle; never 0 |
| Strip.NextIndex | code.py:140 | the next cycle position is the successor, wrapping to 0 after the last |
| Strip.SweepPrefix | code.py:129-137 | the pixel loop over the first k pixels: lapsed pixels take the frame's colour and hold time, the others keep their colour with the countdown reduced; the active set holds exactly the lapsed pixels' frame colours; refresh holds exactly when some lapsed pixel changed colour |
| Strip.Tick | code.py:124-146 | per pixel, a lapsed countdown commits the frame entry and any other countdown drops by the elapsed time; refresh holds exactly when a lapsed pixel changed colour; the index advances (modulo `len(cycle_colors) or 1`) exactly when refresh holds and one distinct colour lapsed; `last_tick` takes the second clock reading; nothing else changes |
| Strip.TickQuiet | code.py:129-146 | when no countdown lapses the tick changes no pixel, pushes nothing and keeps the index |
| Strip.TickCommitsAll | code.py:129-137 | when every countdown lapses the strip shows exactly the frame's colours and holds its durations |
| Strip.TickFullFrame | code.py:129-140 | when every countdown lapses and some pixel changes, the tick pushes, and it advances the index exactly when the frame has one distinct colour |
| Strip.TickRepeatsShown | code.py:131-140 | a frame repeating the shown colours pushes nothing and keeps pixels and index |
| Strip.TickKeepsIndex | code.py:139-140 | a tick whose lapsed pixels commit zero or several distinct colours keeps the index |
| Strip.TickAdvancesIndex | code.py:139-140 | a tick that changes a pixel and commits a single colour pushes and advances the index |
| Strip.TickKeepsIndexInCycle | code.py:139-140 | an index inside the cycle stays inside it |
| Crossfade.ActiveColors | code.py:102-103 | `colors or self.cycle_colors`: the colours passed when there are any, else the cached ones; empty only when both are |
| Crossfade.SelectColors | code.py:105-113 | an index past the cycle resets to 0; the decrement colour is `colors[index]`, the increment the next colour, wrapping to `colors[0]` |
| Crossfade.WipeFrame | code.py:115-120 | with `num_on < n - 1`, the frame has `num_on + 1` increment entries and then decrement entries, all with the step duration; otherwise all n entries are the increment with the pause duration |
| Crossfade.CycleBetween | code.py:99-146 | the call caches the active cycle (the colours passed, else the cached ones); each lapsed pixel takes the colour and hold of the wipe frame for the selected step and the pixels already converted, the others count down; it pushes exactly when a lapsed pixel changes colour; the index moves on from the selected one exactly when it pushes a single colour, and stays inside the cycle; durations and channel count stay fixed |
| Crossfade.PreparedTick | code.py:124-146 | ticking after caching a cycle and selecting an index: lapsed pixels take the frame, the others count down, the push condition, and the index moves on exactly when it pushes a single colour |
| Crossfade.CountLayout | code.py:115-117 | on a strip part-way through a wipe, `count_pixels_colored(increment)` counts exactly the converted pixels |
| Crossfade.StepFrameShape | code.py:117-118 | a step frame lays out one more converted pixel than the strip has |
| Crossfade.PauseFrameShape | code.py:119-120 | the pause frame is the new colour everywhere with the pause duration |
| Crossfade.WipeShowsFrame | code.py:99-146 | when every countdown has run out a call shows its frame on every pixel, and pushes exactly when that changes what the strip showed |
| Crossfade.WipeFromAny | code.py:99-146 | from any strip whose countdowns have all run out: with more than one pixel left the strip shows `m + 1` pixels of the new colour, then the replaced colour, all held for a step, where `m` counts the pixels that already matched the new colour anywhere; otherwise it shows the new colour everywhere, held for the pause; it pushes exactly when the strip changes |
| Crossfade.WipeQuiet | code.py:99-146 | a call before any countdown lapses paints no pixel and pushes nothing; it caches the cycle and resets an index past its end to 0 |
| Crossfade.StepTick | code.py:115-146 | ticking a step frame with all countdowns lapsed converts exactly one more pixel, pushes, and keeps the index |
| Crossfade.PauseTick | code.py:119-146 | ticking the pause frame with one old pixel left fills the strip, pushes and advances the index |
| Crossfade.WipeAdvances | code.py:99-146 | a call with more than one pixel left converts exactly one more and keeps the index |
| Crossfade.WipeCompletes | code.py:99-146 | the call that converts the last pixel fills the strip with the new colour and advances the index |
| Crossfade.WipeHolds | code.py:99-146 | once the strip already shows the increment colour, a call changes no pixel, pushes nothing and keeps the index |
| Crossfade.WipeCallAdvances | code.py:99-122 | a call with the strip's own durations advances the wipe by one pixel |
| Crossfade.WipeCallCompletes | code.py:99-122 | the completing call leaves the strip wholly in the next colour with the index moved on |
| Crossfade.WipeRunConverts | code.py:99-146 | with spaced calls, k < n calls convert exactly the first k pixels and keep the index |
| Crossfade.WipeRunCompletes | code.py:99-146 | n spaced calls wipe an n-pixel strip wholly to the next colour and advance the index once |
| Crossfade.BlueToRed | code.py:99-146 | 16 BLUE pixels with cycle [BLUE, RED]: 15 calls leave one BLUE pixel; the 16th finishes the wipe and moves the index to RED |
| Band.RoundHalfEven | code.py:151 | Python's `round`: the result lies within one half of the input, and an exact tie goes to the even neighbour |
| Band.RoundIsNearest | code.py:151 | no integer lies closer to the input than the rounded value |
| Band.Range | code.py:159 | `range(lo, hi)` holds exactly the integers from lo up to but excluding hi |
| Band.RangeSize | code.py:159 | `range(lo, hi)` holds hi - lo integers |
| Band.SeedFrom | code.py:159-160 | a position is seeded exactly when it lies in the run `range(a + k*step, a + k*step + size - 1)` of one of the starts below n; every seeded position lies at or after the first start and before `n + size - 2` |
| Band.SeedFromStep | code.py:159-160 | the run of the first start joined to the runs of the later starts is the union of the runs of all starts |
| Band.SeedSize | code.py:159-160 | runs no longer than the gap between starts do not overlap, and the seed holds `size - 1` positions per start |
| Band.Seed | code.py:159-160 | every seeded position lies in [0, n + size - 2); the first run 0 .. size - 2 is seeded; when `sections` divides n and a run fits between starts, the seed holds `sections * (size - 1)` positions; a position is seeded exactly when it lies in the run `range(k * (n // sections), k * (n // sections) + size - 1)` of a start below n, and with `sections` dividing n exactly when it lies in one of the first `sections` runs |
| Band.SeedStarts | code.py:159 | when `sections` divides n, `range(0, n, n // sections)` has exactly `sections` starts |
| Band.SeedCount | code.py:159-160 | when `sections` divides n and a run of `size - 1` fits between starts `n // sections` apart, the seed holds exactly `sections * (size - 1)` positions |
| Band.Shift | code.py:163-171 | the band moves by `movement` when the draw is at most `randomness` and by `-movement` otherwise |
| Band.Shifted | code.py:166 | `(p + shift) % n` always lies on the strip |
| Band.Rotate | code.py:164-171 | the rotated band holds exactly the band positions moved by the shift and wrapped onto the strip: each band position's image, and nothing else |
| Band.ShiftBack | code.py:164-171 | moving a position forward and back by the same amount returns it |
| Band.ShiftInjective | code.py:164-171 | two strip positions that shift to the same place are equal |
| Band.RotateRoundTrip | code.py:164-171 | rotating a band on the strip by `shift` and then by `-shift` restores it |
| Band.RotateKeepsSize | code.py:164-171 | rotation neither grows nor shrinks a band on the strip |
| Band.ChaseFrame | code.py:173-178 | entry i is (secondary, duration) when i is in the rotated set, otherwise (primary, duration) |
| Band.CurrentBand | code.py:151-160 | the band is the pixels matching the secondary colour, unless none or all match; then it is the fresh seed |
| Band.Chase | code.py:148-180 | per pixel, a lapsed countdown takes the secondary colour inside the moved band and the primary colour outside it, with the `duration or cycle_duration` hold; other pixels keep their colour with the countdown reduced; the call pushes exactly when a lapsed pixel changes colour; the index advances exactly when it pushes and the lapsed pixels take one colour; `_last_tick` becomes the end time, and everything else (size, channels, cycle and both durations) is kept |
| Band.ChaseTick | code.py:139-180 | ticking a chase frame for any band: the lapsed pixels' colours and holds, the push condition and the index move, in terms of the band |
| Band.ChaseShowsTarget | code.py:163-180 | when every countdown lapses, the strip shows the secondary colour exactly at the rotated band and the primary colour elsewhere |
| Band.ChaseKeepsBandSize | code.py:151-180 | once a band exists and the primary colour differs from it, a chase with all countdowns lapsed keeps the number of secondary pixels |
| Band.SixteenPixelSeed | code.py:151-160 | on 16 pixels at 25% with two sections, the band size is 4 and the seed is {0, 1, 2, 8, 9, 10}, six pixels |
| Band.SeedMovedForward | code.py:164-166 | that seed moved one pixel forward is {1, 2, 3, 9, 10, 11} |
| Band.DarkForwardTarget | code.py:151-166 | on a dark 16-pixel ring, a forward draw targets {1, 2, 3, 9, 10, 11} |
| Band.FirstBottomChase | code.py:148-180 | the first bottom chase on a dark ring, drawn forward, shows OFF at {1, 2, 3, 9, 10, 11} and the day colour elsewhere |
| Shuffle.InsertSorted | code.py:226 | inserting into a key-sorted sequence keeps it sorted |
| Shuffle.InsertPermutes | code.py:226 | inserting adds exactly the new keyed colour |
| Shuffle.SortSorts | code.py:226 | the sort's output is ordered by key |
| Shuffle.SortPermutes | code.py:226 | the sort's output is a rearrangement of its input, and each key stays with its colour |
| Shuffle.SortCarriesColors | code.py:226 | the sorted colours are a rearrangement of the input colours |
| Shuffle.SortColors | code.py:226 | `sorted(colors, key=...)` keeps the length and is a permutation of the colours |
| Shuffle.SortColorsOrdered | code.py:226 | the sorted colours come with their keys in non-decreasing order |
| Shuffle.RandomColorSort | code.py:222-228 | one cycle per light, each a permutation of that light's palette |
| Shuffle.PaletteDistinct | code.py:223-226 | the nine palette colours are distinct |
| Shuffle.Palette | code.py:223-226 | nine colours: the eight base colours in list order, then WHITE exactly for an 8-pixel strip and WHITE_RGB otherwise |
| Shuffle.PaletteCounts | code.py:223-226 | each base colour occurs once; WHITE occurs exactly for the 8-pixel jewel and WHITE_RGB for the others |
| Shuffle.ShuffledPalettes | code.py:222-228 | every shuffled cycle has nine colours, each base colour once, WHITE exactly on the 8-pixel light and WHITE_RGB exactly on the others |
| Orchestrator.IsTransition | code.py:242-246 | the flag as written, with its hour-specific first half, holds exactly at minute 59, second 45 or later, in every hour |
| Orchestrator.IsFriday | code.py:241 | the flag holds exactly on weekday 5, the day the weekday table paints CYAN |
| Orchestrator.UpdateCycles | code.py:247-250 | a transition always takes the fresh shuffle; a Friday takes it only when no cycles exist and otherwise keeps them; any other pass drops the cycles |
| Orchestrator.Classify | code.py:253-267 | the branch order: both plan colours OFF means night; otherwise transition; otherwise Friday; otherwise the role default. The `or is_it_transition` half of the Friday test never decides |
| Orchestrator.ClassifyIsMoment | code.py:240-267 | the loop's classification depends on the clock alone: night outside [7, 21), then the last fifteen seconds of the hour, then Friday (weekday 5), then normal |
| Orchestrator.UpdateKeepsReady | code.py:247-250 | the update leaves the cycles absent or one palette permutation per light, and present whenever a crossfade will index them |
| Orchestrator.FridayShufflesOnce | code.py:247-250 | on Fridays outside transitions, a second pass keeps the cycles the first chose |
| Orchestrator.TransitionReshuffles | code.py:247-248 | every transition pass takes the fresh shuffle |
| Orchestrator.CyclesByMoment | code.py:247-250 | by moment, the cycles are: the fresh shuffle in a transition; the existing ones on a Friday that has them; none on a normal pass |
| Orchestrator.Animate | code.py:252-274 | turn-off exactly at night; on transition and Friday passes every light crossfades through its random cycle with the step and pause durations drawn for it; on normal passes the top light chases the plan (its colours, hold time and fill), the middle light wipes [OFF, WHITE] with default durations, and the bottom light chases the weekday colour over OFF with the bottom hold time and a quarter-ring band |
| Orchestrator.Run | code.py:253-274 | turning off blanks and pushes and changes nothing but the pixels, so countdowns, `_last_tick` and `cycle_index` carry over to the next lit pass; a crossfade caches its cycle and gives each lapsed pixel the colour and hold of its wipe frame; a chase keeps the cycle and gives each lapsed pixel the secondary colour inside the band moved with randomness 0.5, movement 1 and two sections, the primary elsewhere, with the `duration or cycle_duration` hold; under both, other pixels keep their colour and count down; no animation changes the pause or cycle duration |
| Orchestrator.CanRun | code.py:257-274 | no light is asked to crossfade without a cycle or to chase with fewer pixels than sections |
| Orchestrator.Startup | code.py:184-192 | start-up gives three strips of 16, 8 and 16 pixels (3, 4 and 3 channels), all OFF, and no cycles |
| Orchestrator.Pass | code.py:233-274 | a pass keeps the three lights' sizes and channel counts and the cycle invariant, and runs in the moment the clock gives |
| Orchestrator.StepCycleColors | code.py:252-274 | each light's cached cycle after its step: the pass's cycle on crossfade passes, [OFF, WHITE] for the middle light on normal passes, unchanged for the rings |
| Orchestrator.PassNight | code.py:253-255 | outside [7, 21) every light turns fully OFF and pushes, and keeps everything but its pixels |
| Orchestrator.PassTransition | code.py:247-261 | in the last fifteen seconds of a daytime hour the cycles are the fresh shuffle, and each light crossfades through its own palette permutation with the durations drawn for it |
| Orchestrator.PassFriday | code.py:247-267 | on a Friday pass with existing cycles they are kept, and each light runs `cycle_between` through its own with the durations drawn for it |
| Orchestrator.PassNormal | code.py:249-272 | on a normal pass the cycles are dropped, the middle light cycles [OFF, WHITE], and the rings keep their cycles |
| Orchestrator.CrossfadeStep | code.py:257-267 | on a transition or Friday pass each light's new state and push flag are those of `cycle_between` with its nine-colour cycle and its two `random.uniform` durations |
| Orchestrator.MiddleWipesOffWhite | code.py:271-272 | on a normal pass the jewel's new state and push flag are those of `cycle_between` over [OFF, WHITE] with its default durations |
| Orchestrator.TopChasesPlan | code.py:269-270 | on a normal pass the top ring's new state and push flag are those of `chase` with the hour plan's colours, hold time and fill, and the default randomness, movement and sections |
| Orchestrator.BottomChasesWeekday | code.py:273-274 | on a normal pass the bottom ring's new state and push flag are those of `chase` with the weekday colour over OFF, the bottom hold time, a quarter-ring band and the default randomness, movement and sections |
| Orchestrator.BottomShowsWeekday | code.py:273-274 | on a normal pass in which every bottom countdown lapses, the bottom ring shows only the weekday colour and OFF |

## Left out

- Hardware: `board`, `busio`, `neopixel`, the PCF8523 RTC and the clock-setting block (code.py:1-29). `show()` becomes the refresh flag; the brightness scaling and the pixel-order wiring live in a library that is not part of this model.
- The neopixel read-back: the buffer is modelled as stored four-channel colours. On a three-channel strip the library hands back 3-tuples, and `pixel != cd.color` at code.py:135 then compares tuples of different lengths; the model compares stored colours exactly there. As a consequence, on the two three-channel rings the source pushes on every tick in which any pixel lapses. It also moves `cycle_index` whenever those lapsed pixels take one colour, as in a top-ring chase at minute 55, where the fill is 0 and the band is empty. The model pushes and moves the index only when a colour really changes. So Crossfade.WipeHolds and Strip.TickRepeatsShown, which push nothing on an unchanged frame, describe only the four-channel jewel. Strip.TickQuiet and Crossfade.WipeQuiet hold on every light, because with no lapsed pixel the source compares nothing.
- `random`: every draw is a parameter. `random_duration`'s distribution and the `random.uniform` ranges at code.py:259 and 265 are not constrained; the fast and calm crossfades differ only in those ranges, so the model gives both the same shape.
- Floating point: durations and clock readings are exact reals. `Band.RoundHalfEven` rounds the exact product `n * percentage`, not its float; the two agree for the percentages the program uses.
- The `while True` loop (code.py:233), `print`, `debug` and `previous_second` (code.py:13-15, 235-237): the model gives one pass; runs of passes are only modelled for the wipe (`Crossfade.WipeRun`).
- Crossfade.CycleBetween: requires a non-empty active cycle. The source raises an uncaught IndexError there, so this is a precondition, not modelled behaviour.
- Band.Chase: requires 0 < sections <= n. When a call seeds a band (the strip shows none or only band pixels), more sections than pixels make the source's `range` step `n // sections` 0, so `range` raises ValueError, and 0 sections divides by zero; a call that finds a band never evaluates `n // sections`.
- Strip.Tick: requires a frame with at least one entry per pixel. `zip` would silently truncate a shorter frame.
- Orchestrator.Clock: the weekday is taken in 0-6, as the RTC reports it. Python's negative indexing of `day_periods` never arises.
- Shuffle.SortColors: Python's `sorted` is stable; the insertion sort keeps equal keys in input order, but the model does not prove stability. Ties between `random.random()` keys are the only case where it matters.
- Band.ChaseKeepsBandSize: proved only for passes in which every countdown lapses, once a band exists and the primary colour differs from it on the strip's channels. With some countdowns still running, pixels keep their old colours and the band can split or grow.
- Band.Chase: the band read back from the strip is the set of matching indices. The source's list has no duplicates, so membership tests on it and on the set agree.
