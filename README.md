# HarMoNee harmonizer: control logic

A model of the per-sample control logic of the HarMoNee module of the
BaconPlugs collection for a modular-synthesizer host. On every audio sample
the module reads six interval toggles (half step, whole step, minor third,
major third, fifth, octave) and an up/down switch. It lights the matching
lights, shows the semitone sum on a two-digit display, and turns the signed
sum into a pitch offset in octaves (sum / 12). A glissando controller with
three fields of state (`priorOffset`, `targetOffset`, `offsetCount`) then
glides towards that offset over `44000 / 5 = 8800` samples instead of
jumping. The glided offset is added to the input signal. The input is also
passed through unchanged.

Files:

- `toggles.dfy` (module `Toggles`): the interval table, keyed by a `Degree`
  tag. The toggle sum, direction and request are specification functions.
  `ReadPanel` is the panel scan loop. Lemmas cover the range of the sum, the
  display digits, the lights and the request.
- `glissando.dfy` (module `Glissando`): the glissando controller as a pure
  transition `Advance` on a `Glide(prior, target, count)` value, for any
  glide length `T > 1`. `Run` feeds it a sequence of requests. Lemmas state
  the controller's behaviours: rest, start, retarget, slew, bounds, completion,
  and whole glides.
- `harmonizer.dfy` (module `Harmonizer`): the module as a class `HarMoNee`
  with the source's fields. The constructor builds the table and the rest
  state. `Step` is the per-sample step, written as the source's imperative
  code and proved to agree with `Advance` at `T = 8800`.

The glide values (`priorOffset`, `targetOffset`, the request and the
output) are `float` in the source and `real` in the model. The offsets
table (`std::vector<float>`, line 40) and the running toggle sum `offsetI`
(lines 72 and 89) are `float` in the source but `int` in the model: they
only ever hold whole numbers up to 29, which `float` adds exactly. The
integer casts of lines 96-97 act on that non-negative sum, so `%` and `/`
on `int` give the same digits as the source's truncating cast.

## Behaviour as written

A glide does not land on its request. It starts at count 1 (line 119). The
reset at line 144 runs after the increment at line 140, so the last
interpolation of a glide uses count `T - 1`. The glide then settles
`(T - 1) / T` of the way to the request. If the request is unchanged, a new
glide starts over the remaining gap on the next tick, and so on. The
comment at lines 108-110 says that outside a glide `priorOffset`,
`targetOffset` and the request are all the same; on the tick after a glide
settles this does not hold, since the count is 0 while prior = target
differs from the request. One would expect a ten-tick glide from 0 to 5 to output 0.5, 1.0, ..., 5.0 and then
rest at 5. The code outputs 0.5, ..., 4.5, settles at 4.5, and outputs 4.55
on the tenth tick. The model follows the code: see `FullGlide`,
`NeverLandsOnRequest` and `TenTickExample`. No lemma claims that the output
reaches the request after `T` ticks.

On a retarget tick, `lastKnown` is computed from the old prior and old
target before either is reassigned (lines 130-134). The output on that tick
is one step of the OLD glide beyond the previous output (`Retarget`,
`StepSize`). That step may move away from the new request.

## Model

| member | source | states |
|---|---|---|
| `Toggles.Semitones` | src/HarMoNee.cpp:48-53 | every interval toggle is worth between 1 and 12 semitones (the table: 1, 2, 3, 4, 7, 12) |
| `Toggles.ParamIndex` | src/HarMoNee.cpp:5-14 | each toggle's parameter id lies in HALF_STEP..OCTAVE (1..6), and the scan order visits the toggles in that order |
| `Toggles.LightIndex` | src/HarMoNee.cpp:24-38 | each toggle's light id is its parameter id plus the fixed distance HALF_STEP_LIGHT - HALF_STEP, inside the toggle lights 2..7 |
| `Toggles.ReadPanel` | src/HarMoNee.cpp:72-99 | the panel scan returns the signed request sum / 12 and sets all ten lights: exactly one of up/down, each toggle light from its parameter, and the ones and tens digits of the sum |
| `Toggles.SumOfRange` | src/HarMoNee.cpp:84-95 | a partial sum over toggles is between 0 and the total of their semitones; it is 0 iff none is on and the total iff all are on |
| `Toggles.SumOfSingle` | src/HarMoNee.cpp:84-95 | with only toggle d on, the sum counts d's semitones once per occurrence of d |
| `Toggles.ToggleSumRange` | src/HarMoNee.cpp:48-53 | the display sum is in 0..29; it is 0 iff no toggle is on and 29 iff all six are on |
| `Toggles.DisplayShowsSum` | src/HarMoNee.cpp:96-97 | the ones digit is in 0..9, the tens digit in 0..2, and tens * 10 + ones equals the sum |
| `Toggles.LightsShowSwitches` | src/HarMoNee.cpp:73-95 | up lit and down dark iff the switch is above 0, the reverse otherwise; a toggle light is 1 iff its parameter is above 0 and 0 iff not |
| `Toggles.RequestRange` | src/HarMoNee.cpp:73-99 | the request is within +-29/12 octaves; it is 0 iff no toggle is on, positive iff the switch is up and some toggle is on, and negative iff the switch is down and some toggle is on |
| `Toggles.SingleToggleRequest` | src/HarMoNee.cpp:53-99 | with one toggle on, the request is that interval's semitones / 12 signed by the switch; the octave toggle alone asks for exactly +-1 |
| `Glissando.Advance` | src/HarMoNee.cpp:112-149 | one controller tick keeps the state invariant, and the new state records the output just produced |
| `Glissando.Run` | src/HarMoNee.cpp:112-149 | feeding n requests yields n outputs, one per tick |
| `Glissando.InterpStart` | src/HarMoNee.cpp:137-138 | at count 0 the interpolation gives its start value |
| `Glissando.InterpNext` | src/HarMoNee.cpp:137-140 | each increment of the count moves the interpolation by exactly (end - start) / T |
| `Glissando.InterpOffset` | src/HarMoNee.cpp:130-131 | the interpolation is start + c * (end - start) / T, and it falls short of the end by (T - c) * (end - start) / T |
| `Glissando.InterpBetween` | src/HarMoNee.cpp:137-138 | for counts 0..T the interpolation lies between its start and end |
| `Glissando.InterpShort` | src/HarMoNee.cpp:137-138 | at any count below T the interpolation has not reached its end when the two ends differ |
| `Glissando.InitialState` | src/HarMoNee.cpp:54-56 | the all-zero initial state satisfies the invariant and outputs 0 |
| `Glissando.QuiescentTick` | src/HarMoNee.cpp:112-124 | at rest with the request equal to priorOffset, the tick outputs the request and changes nothing |
| `Glissando.GlideStart` | src/HarMoNee.cpp:116-140 | from rest with a different request: target := request, output prior + (request - prior) / T, count left at 2 (or settled at once when T = 2) |
| `Glissando.Retarget` | src/HarMoNee.cpp:128-140 | mid-glide with a changed request: the new prior is the old glide's value at the current count, the target is the request, the count is left at 1, and the output equals the new prior, one old-glide step past the previous output |
| `Glissando.StepSize` | src/HarMoNee.cpp:128-140 | every tick moves the output by exactly (heading - prior) / T, where the heading is the request when starting and the target otherwise (0 at rest; constant slew within a glide) |
| `Glissando.BoundedSlew` | src/HarMoNee.cpp:128-140 | the change of output per tick is at most the glide's span / T in absolute value |
| `Glissando.OutputBetween` | src/HarMoNee.cpp:130-138 | the output is the interpolation at a count in 0..T-1 from the glide's start (prior, or the retarget point) to the request, so it lies between them |
| `Glissando.Completion` | src/HarMoNee.cpp:144-149 | when the count reaches T the state rests with prior = target = output = prior + (T - 1) / T * (target - prior); that is short of the target when they differ, and the same request on the next tick starts a new glide |
| `Glissando.RunKeepsInvariant` | src/HarMoNee.cpp:102-149 | the state invariant holds after any sequence of ticks |
| `Glissando.RunAppend` | src/HarMoNee.cpp:112-149 | running two request sequences one after the other equals running their concatenation |
| `Glissando.QuiescentRun` | src/HarMoNee.cpp:112-124 | at rest, repeating the resting value outputs it on every tick and never leaves the resting state |
| `Glissando.GlideRun` | src/HarMoNee.cpp:124-149 | with an unchanged request, a glide at count c outputs the interpolations at c, c + 1, ... and settles at the count T - 1 value when the count reaches T |
| `Glissando.FullGlide` | src/HarMoNee.cpp:113-149 | from rest, T - 1 ticks of a new request output the interpolations at counts 1..T-1 and rest (request - prior) / T short of the request |
| `Glissando.NeverLandsOnRequest` | src/HarMoNee.cpp:113-149 | after T ticks of an unchanged request from rest, the T-th output is the first step of a second glide and differs from the request |
| `Glissando.TenTickExample` | src/HarMoNee.cpp:101-149 | with T = 10, from 0 towards 5: outputs 0.5, 1.0, ..., 4.5, then 4.55 on the tenth tick |
| `Harmonizer.AsWrittenOffsetStorage` | src/HarMoNee.cpp:46 | the constructor's storage loop creates OCTAVE (6) zero entries, so the octave's id 6 is not a valid index |
| `Harmonizer.HarMoNee.constructor` | src/HarMoNee.cpp:45-57 | the table has an entry for every parameter id, each toggle's entry holds its semitones, and the glide state starts at rest at 0 |
| `Harmonizer.HarMoNee.Step` | src/HarMoNee.cpp:62-155 | one sample: lights as the panel shows, echo = input, the new glide state and output are exactly one `Advance` tick at T = 8800, increased = input + output, and the output moved by the glide's span / T |

## Findings

| source | as written | input that shows it | evidently intended | confidence | as-written member | corrected member |
|---|---|---|---|---|---|---|
| src/HarMoNee.cpp:46 | the offsets vector gets `OCTAVE` = 6 entries (indices 0..5), but line 53 writes and line 89 reads `offsets[OCTAVE]`, index 6 | constructing the module (line 53); any step with the octave toggle on (line 89) | one entry per parameter id (`NUM_PARAMS` = 7), so indices 1..6 all exist | high; not executed | `Harmonizer.AsWrittenOffsetStorage` | `Harmonizer.HarMoNee.constructor` |

## Left out

- `HarMoNeeWidget` (panel layout, ports, knobs, light placement) is GUI code and is not modelled.
- The bitmap-font text renderer of `src/DMPText.cpp` is font loading and drawing through foreign libraries; it is not part of this model.
- The host's `inputs`, `params`, `lights` and `outputs` arrays are plain parameters and results of `Step`; the lights start as zeros because the step writes all ten of them.
- Floating-point rounding is not modelled: values are `real`. The comparisons at lines 116 and 128 are exact, and the rounding that eventually lets repeated residual glides settle in `float` has no counterpart.
- The offsets table and the toggle sum are `int`: in the source they are `float` holding whole numbers up to 29, which `float` adds exactly.
- `offsetCount` is an unbounded integer; the invariant keeps it below 8800, so 32-bit overflow cannot arise.
