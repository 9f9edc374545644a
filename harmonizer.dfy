/**
 * The HarMoNee module: an offset table built at construction, three fields
 * of glissando state, and the per-sample step that reads the panel, moves
 * the glissando one tick and adds the resulting offset to the input signal.
 */
module Harmonizer {
  import opened Toggles
  import opened Glissando

  /** Glide length in ticks: a fifth of 44000. */
  const ShiftTime: int := 44000 / 5

  /**
   * The offset storage as the constructor first creates it: one zero entry
   * per index below the octave's parameter id. The octave's own id, which the
   * constructor then writes and the step reads, is outside it.
   */
  method AsWrittenOffsetStorage() returns (offsets: seq<int>)
    ensures |offsets| == OctaveParam
    ensures forall k :: 0 <= k < |offsets| ==> offsets[k] == 0
    ensures !(0 <= ParamIndex(Octave) < |offsets|)
  {
    offsets := [];
    var i := 0;
    while i < OctaveParam
      invariant 0 <= i <= OctaveParam
      invariant |offsets| == i
      invariant forall k :: 0 <= k < i ==> offsets[k] == 0
    {
      offsets := offsets + [0];
      i := i + 1;
    }
  }

  class HarMoNee {
    /** Semitones per parameter id; only the toggles' ids are used. */
    var offsets: seq<int>
    var priorOffset: real
    var targetOffset: real
    var offsetCount: int

    /** The glissando state held in the three fields. */
    function State(): Glide
      reads this
    {
      Glide(priorOffset, targetOffset, offsetCount)
    }

    ghost predicate Valid()
      reads this
    {
      OffsetsValid(offsets) && Inv(ShiftTime, State())
    }

    /** The offset the module is currently adding to its input. */
    ghost function Level(): real
      reads this
    {
      Current(ShiftTime, State())
    }

    /**
     * Creates one entry per parameter id, fills in the semitones of the six
     * toggles and starts at rest at offset 0.
     */
    constructor ()
      ensures Valid()
      ensures |offsets| == NumParams
      ensures forall d :: offsets[ParamIndex(d)] == Semitones(d)
      ensures State() == Glide(0.0, 0.0, 0) && Level() == 0.0
    {
      var table := [];
      var i := 0;
      while i < NumParams
        invariant 0 <= i <= NumParams && |table| == i
      {
        table := table + [0];
        i := i + 1;
      }
      table := table[HalfStepParam := 1];
      table := table[WholeStepParam := 2];
      table := table[MinorThirdParam := 3];
      table := table[MajorThirdParam := 4];
      table := table[FifthParam := 7];
      table := table[OctaveParam := 12];
      offsets := table;
      priorOffset := 0.0;
      targetOffset := 0.0;
      offsetCount := 0;
    }

    /**
     * One audio sample: reads the panel into a request and the lights, moves
     * the glissando one tick towards the request, passes the input through
     * unchanged and outputs it shifted by the glissando's output.
     */
    method Step(input: real, params: seq<real>) returns (echo: real, increased: real, lights: seq<real>)
      requires Valid()
      requires |params| == NumParams
      modifies this
      ensures Valid() && offsets == old(offsets)
      ensures Shows(params, lights)
      ensures echo == input
      ensures Advance(ShiftTime, old(State()), Request(params)) == Tick(State(), increased - input)
      ensures increased == input + Level()
      ensures Level() - old(Level()) == (Heading(old(State()), Request(params)) - old(priorOffset)) / ShiftTime as real
    {
      ghost var before := State();
      echo := input;
      var offset;
      offset, lights := ReadPanel(offsets, params);
      ghost var request := offset;

      var shiftTime := ShiftTime;
      var inGliss := offsetCount != 0;
      if !inGliss {
        if offset != priorOffset {
          targetOffset := offset;
          offsetCount := 1;
          inGliss := true;
        }
      }

      if inGliss {
        if offset != targetOffset {
          var lastKnown := Interp(shiftTime, offsetCount, priorOffset, targetOffset);
          targetOffset := offset;
          priorOffset := lastKnown;
          offsetCount := 0;
        }
        offset := Interp(shiftTime, offsetCount, priorOffset, offset);
        offsetCount := offsetCount + 1;
      }

      if offsetCount == shiftTime {
        offsetCount := 0;
        priorOffset := offset;
        targetOffset := offset;
      }

      increased := input + offset;
      StepSize(ShiftTime, before, request);
    }
  }
}
