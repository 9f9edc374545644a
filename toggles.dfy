/**
 * The toggle panel of the HarMoNee harmonizer. Six interval toggles each add
 * a fixed number of semitones when they are on; an up/down switch gives the
 * sign. The unsigned sum is shown on a two-digit display, and the signed sum
 * divided by twelve (one octave per unit) is the pitch offset requested from
 * the glissando controller on every tick.
 */
module Toggles {

  /** The six interval toggles, in panel order. */
  datatype Degree = HalfStep | WholeStep | MinorThird | MajorThird | Fifth | Octave

  // Parameter ids: positions in the host's parameter array.
  const UpOrDown := 0
  const HalfStepParam := 1
  const WholeStepParam := 2
  const MinorThirdParam := 3
  const MajorThirdParam := 4
  const FifthParam := 5
  const OctaveParam := 6
  const NumParams := 7

  // Light ids: positions in the host's light array.
  const UpLight := 0
  const DownLight := 1
  const HalfStepLight := 2
  const DigitOnes := 8
  const DigitTens := 9
  const NumLights := 10

  /** The toggles in the order the panel scan visits them. */
  const AllDegrees: seq<Degree> := [HalfStep, WholeStep, MinorThird, MajorThird, Fifth, Octave]

  /** Semitones a toggle adds when it is on. */
  function Semitones(d: Degree): (n: nat)
    ensures 1 <= n <= 12
  {
    match d
    case HalfStep => 1
    case WholeStep => 2
    case MinorThird => 3
    case MajorThird => 4
    case Fifth => 7
    case Octave => 12
  }

  /** The parameter id of a toggle. */
  function ParamIndex(d: Degree): (i: int)
    ensures HalfStepParam <= i <= OctaveParam
    ensures AllDegrees[i - HalfStepParam] == d
  {
    match d
    case HalfStep => HalfStepParam
    case WholeStep => WholeStepParam
    case MinorThird => MinorThirdParam
    case MajorThird => MajorThirdParam
    case Fifth => FifthParam
    case Octave => OctaveParam
  }

  /** The light id of a toggle: its parameter id shifted by a fixed distance. */
  function LightIndex(d: Degree): (i: int)
    ensures HalfStepLight <= i < DigitOnes
    ensures i - ParamIndex(d) == HalfStepLight - HalfStepParam
  {
    ParamIndex(d) + (HalfStepLight - HalfStepParam)
  }

  /** Whether toggle d is on: its parameter is above zero. */
  predicate On(params: seq<real>, d: Degree)
    requires |params| == NumParams
  {
    params[ParamIndex(d)] > 0.0
  }

  /** Semitones toggle d contributes to the sum. */
  function Contribution(params: seq<real>, d: Degree): nat
    requires |params| == NumParams
  {
    if On(params, d) then Semitones(d) else 0
  }

  /** Sum of the contributions of the toggles in ds. */
  function SumOf(params: seq<real>, ds: seq<Degree>): int
    requires |params| == NumParams
    decreases |ds|
  {
    if ds == [] then 0 else SumOf(params, ds[..|ds| - 1]) + Contribution(params, ds[|ds| - 1])
  }

  /** Sum of the semitones of the toggles in ds, all switched on. */
  function Total(ds: seq<Degree>): int
    decreases |ds|
  {
    if ds == [] then 0 else Total(ds[..|ds| - 1]) + Semitones(ds[|ds| - 1])
  }

  /** The number shown on the display: semitones of all toggles that are on. */
  function ToggleSum(params: seq<real>): int
    requires |params| == NumParams
  {
    SumOf(params, AllDegrees)
  }

  /** +1 when the up/down switch is above zero, -1 otherwise. */
  function Direction(params: seq<real>): real
    requires |params| == NumParams
  {
    if params[UpOrDown] > 0.0 then 1.0 else -1.0
  }

  /** The requested pitch offset in octaves. */
  function Request(params: seq<real>): real
    requires |params| == NumParams
  {
    Direction(params) * ToggleSum(params) as real / 12.0
  }

  /** The offset table holds, at each toggle's parameter id, that toggle's semitones. */
  ghost predicate OffsetsValid(offsets: seq<int>)
  {
    |offsets| == NumParams && forall d :: offsets[ParamIndex(d)] == Semitones(d)
  }

  /** What the panel lights show for the given parameters. */
  ghost predicate Shows(params: seq<real>, lights: seq<real>)
    requires |params| == NumParams
  {
    && |lights| == NumLights
    && lights[UpLight] == (if params[UpOrDown] > 0.0 then 1.0 else 0.0)
    && lights[DownLight] == 1.0 - lights[UpLight]
    && (forall d :: lights[LightIndex(d)] == if On(params, d) then 1.0 else 0.0)
    && lights[DigitOnes] == (ToggleSum(params) % 10) as real
    && lights[DigitTens] == (ToggleSum(params) / 10) as real
  }

  /**
   * The panel scan: sets the up/down lights, visits the toggles in parameter
   * order setting each toggle's light and adding up the semitones of those
   * that are on, writes the two display digits and signs and scales the sum.
   */
  method ReadPanel(offsets: seq<int>, params: seq<real>) returns (request: real, lights: seq<real>)
    requires OffsetsValid(offsets)
    requires |params| == NumParams
    ensures request == Request(params)
    ensures Shows(params, lights)
  {
    lights := seq(NumLights, _ => 0.0);
    var sum := 0;
    var direction := if params[UpOrDown] > 0.0 then 1.0 else -1.0;
    if direction > 0.0 {
      lights := lights[UpLight := 1.0][DownLight := 0.0];
    } else {
      lights := lights[DownLight := 1.0][UpLight := 0.0];
    }

    var ld := HalfStepLight - HalfStepParam;
    var i := HalfStepParam;
    while i <= OctaveParam
      invariant HalfStepParam <= i <= OctaveParam + 1
      invariant |lights| == NumLights
      invariant lights[UpLight] == (if params[UpOrDown] > 0.0 then 1.0 else 0.0)
      invariant lights[DownLight] == 1.0 - lights[UpLight]
      invariant forall j :: HalfStepParam <= j < i ==> lights[j + ld] == if params[j] > 0.0 then 1.0 else 0.0
      invariant sum == SumOf(params, AllDegrees[..i - HalfStepParam])
    {
      ghost var d := AllDegrees[i - HalfStepParam];
      assert ParamIndex(d) == i && offsets[i] == Semitones(d);
      assert AllDegrees[..i + 1 - HalfStepParam][..i - HalfStepParam] == AllDegrees[..i - HalfStepParam];
      if params[i] > 0.0 {
        lights := lights[i + ld := 1.0];
        sum := sum + offsets[i];
      } else {
        lights := lights[i + ld := 0.0];
      }
      i := i + 1;
    }
    assert AllDegrees[..OctaveParam + 1 - HalfStepParam] == AllDegrees;

    lights := lights[DigitOnes := (sum % 10) as real][DigitTens := (sum / 10) as real];
    request := direction * sum as real / 12.0;
  }

  /**
   * The sum over any list of toggles lies between zero and the list's total,
   * is zero exactly when none of them is on and is the total exactly when
   * all of them are on.
   */
  lemma {:induction false} SumOfRange(params: seq<real>, ds: seq<Degree>)
    requires |params| == NumParams
    ensures 0 <= SumOf(params, ds) <= Total(ds)
    ensures SumOf(params, ds) == 0 <==> forall k :: 0 <= k < |ds| ==> !On(params, ds[k])
    ensures SumOf(params, ds) == Total(ds) <==> forall k :: 0 <= k < |ds| ==> On(params, ds[k])
    decreases |ds|
  {
    if ds != [] {
      var front, last := ds[..|ds| - 1], ds[|ds| - 1];
      SumOfRange(params, front);
      assert forall k :: 0 <= k < |front| ==> front[k] == ds[k];
    }
  }

  /** With exactly one toggle on, the sum over a list counts that toggle once per occurrence. */
  lemma {:induction false} SumOfSingle(params: seq<real>, ds: seq<Degree>, d: Degree)
    requires |params| == NumParams
    requires forall e :: On(params, e) <==> e == d
    ensures SumOf(params, ds) == Semitones(d) * multiset(ds)[d]
    decreases |ds|
  {
    if ds != [] {
      var front, last := ds[..|ds| - 1], ds[|ds| - 1];
      assert ds == front + [last];
      SumOfSingle(params, front, d);
    }
  }

  /**
   * The displayed sum is between 0 and 29 (all six toggles on); it is 0
   * exactly when no toggle is on and 29 exactly when all are on.
   */
  lemma ToggleSumRange(params: seq<real>)
    requires |params| == NumParams
    ensures 0 <= ToggleSum(params) <= 29
    ensures ToggleSum(params) == 0 <==> forall d :: !On(params, d)
    ensures ToggleSum(params) == 29 <==> forall d :: On(params, d)
  {
    SumOfRange(params, AllDegrees);
    var running := [0, 1, 3, 6, 10, 17, 29];
    for n := 0 to |AllDegrees|
      invariant Total(AllDegrees[..n]) == running[n]
    {
      assert AllDegrees[..n + 1][..n] == AllDegrees[..n];
    }
    assert AllDegrees[..|AllDegrees|] == AllDegrees;
    forall d ensures AllDegrees[ParamIndex(d) - HalfStepParam] == d { }
  }

  /**
   * The two display digits show the sum: the ones digit is in 0..9, the
   * tens digit in 0..2, and tens * 10 + ones is the sum.
   */
  lemma DisplayShowsSum(params: seq<real>, lights: seq<real>)
    requires |params| == NumParams
    requires Shows(params, lights)
    ensures 0.0 <= lights[DigitOnes] <= 9.0
    ensures 0.0 <= lights[DigitTens] <= 2.0
    ensures lights[DigitTens] * 10.0 + lights[DigitOnes] == ToggleSum(params) as real
  {
    ToggleSumRange(params);
  }

  /**
   * Exactly one of the up and down lights is lit, and a toggle's light is lit
   * exactly when its parameter is above zero.
   */
  lemma LightsShowSwitches(params: seq<real>, lights: seq<real>)
    requires |params| == NumParams
    requires Shows(params, lights)
    ensures (lights[UpLight] == 1.0 && lights[DownLight] == 0.0) <==> params[UpOrDown] > 0.0
    ensures (lights[UpLight] == 0.0 && lights[DownLight] == 1.0) <==> params[UpOrDown] <= 0.0
    ensures forall d :: lights[LightIndex(d)] == 1.0 <==> params[ParamIndex(d)] > 0.0
    ensures forall d :: lights[LightIndex(d)] == 0.0 <==> params[ParamIndex(d)] <= 0.0
  {
  }

  /**
   * The request is the signed sum over twelve: at most 29/12 octaves either
   * way, zero exactly when no toggle is on, and above zero exactly when the
   * switch is up and some toggle is on.
   */
  lemma RequestRange(params: seq<real>)
    requires |params| == NumParams
    ensures -29.0 / 12.0 <= Request(params) <= 29.0 / 12.0
    ensures Request(params) == 0.0 <==> forall d :: !On(params, d)
    ensures Request(params) > 0.0 <==> params[UpOrDown] > 0.0 && exists d :: On(params, d)
    ensures Request(params) < 0.0 <==> params[UpOrDown] <= 0.0 && exists d :: On(params, d)
  {
    ToggleSumRange(params);
  }

  /** With one toggle on, the request is that interval in octaves: the octave toggle alone asks for exactly one octave. */
  lemma SingleToggleRequest(params: seq<real>, d: Degree)
    requires |params| == NumParams
    requires forall e :: On(params, e) <==> e == d
    ensures Request(params) == Direction(params) * Semitones(d) as real / 12.0
    ensures d == Octave ==> Request(params) == Direction(params)
  {
    SumOfSingle(params, AllDegrees, d);
    assert multiset(AllDegrees)[d] == 1;
  }
}
