/**
 * The glissando controller of HarMoNee, as a pure transition on its three
 * pieces of state. Each tick it either stays put (nothing requested differs
 * from where it rests), starts a glide, continues one, or retargets a glide
 * in flight from the point the old glide has reached. A glide of length T
 * outputs the linear interpolation between its start and the request at
 * counts 1, 2, ..., T - 1 and then settles where it stands, T - 1 T-ths of
 * the way; a remaining gap is glided over again on the following ticks.
 */
module Glissando {

  /** prior: where the glide started; target: where it heads; count: ticks into it (0 = at rest). */
  datatype Glide = Glide(prior: real, target: real, count: int)

  /** The state after one tick and the offset output on that tick. */
  datatype Tick = Tick(next: Glide, out: real)

  /** The state after a run of ticks and the offsets output on them, in order. */
  datatype Trace = Trace(final: Glide, outputs: seq<real>)

  /** Linear interpolation from p towards q at fraction c / T. */
  function Interp(T: int, c: int, p: real, q: real): real
    requires T > 0
  {
    ((T - c) as real * p + c as real * q) / T as real
  }

  /** The state invariant: the count stays below T, and at rest the glide's ends coincide. */
  ghost predicate Inv(T: int, g: Glide)
  {
    0 <= g.count < T && (g.count == 0 ==> g.prior == g.target)
  }

  /** The output recorded by the state: where the last tick left the offset. */
  function Current(T: int, g: Glide): real
    requires T > 0
  {
    if g.count == 0 then g.prior else Interp(T, g.count - 1, g.prior, g.target)
  }

  /** Where the glide in force on a tick with request r heads: the request when starting from rest, the target otherwise. */
  function Heading(g: Glide, r: real): real
  {
    if g.count == 0 then r else g.target
  }

  /** After the count is incremented: once it reaches T the glide settles at the output. */
  function Settle(T: int, g: Glide, out: real): Tick
  {
    if g.count == T then Tick(Glide(out, out, 0), out) else Tick(g, out)
  }

  /**
   * One tick with request r: at rest with r equal to the prior value nothing
   * happens; at rest otherwise a glide to r starts at count 1; mid-glide with
   * r equal to the target the glide goes on; mid-glide with any other r the
   * point reached at the current count becomes the new start, r the new
   * target and the count restarts from 0.
   */
  function Advance(T: int, g: Glide, r: real): (t: Tick)
    requires T > 1
    ensures Inv(T, g) ==> Inv(T, t.next)
    ensures Inv(T, g) ==> t.out == Current(T, t.next)
  {
    if g.count == 0 && r == g.prior then
      Tick(g, r)
    else if g.count == 0 then
      Settle(T, Glide(g.prior, r, 2), Interp(T, 1, g.prior, r))
    else if r == g.target then
      Settle(T, Glide(g.prior, g.target, g.count + 1), Interp(T, g.count, g.prior, r))
    else
      var lastKnown := Interp(T, g.count, g.prior, g.target);
      Settle(T, Glide(lastKnown, r, 1), Interp(T, 0, lastKnown, r))
  }

  /** Feeds the requests one per tick, from state g. */
  function Run(T: int, g: Glide, requests: seq<real>): (tr: Trace)
    requires T > 1
    ensures |tr.outputs| == |requests|
    decreases |requests|
  {
    if requests == [] then
      Trace(g, [])
    else
      var t := Advance(T, g, requests[0]);
      var rest := Run(T, t.next, requests[1..]);
      Trace(rest.final, [t.out] + rest.outputs)
  }

  /** n ticks' worth of the same request. */
  function Constant(r: real, n: nat): seq<real>
  {
    seq(n, _ => r)
  }

  /** At count 0 interpolation yields its start. */
  lemma InterpStart(T: int, p: real, q: real)
    requires T > 0
    ensures Interp(T, 0, p, q) == p
  {
    assert (T - 0) as real * p + 0 as real * q == T as real * p;
  }

  /** One more count moves the interpolation by exactly one T-th of the span. */
  lemma InterpNext(T: int, c: int, p: real, q: real)
    requires T > 0
    ensures Interp(T, c + 1, p, q) == Interp(T, c, p, q) + (q - p) / T as real
  {
    var n0 := (T - c) as real * p + c as real * q;
    var n1 := (T - (c + 1)) as real * p + (c + 1) as real * q;
    assert n1 == n0 + (q - p);
    assert (n0 + (q - p)) / T as real == n0 / T as real + (q - p) / T as real;
  }

  /** Interpolation in closed form: the start plus c T-ths of the span. */
  lemma InterpOffset(T: int, c: int, p: real, q: real)
    requires T > 0
    ensures Interp(T, c, p, q) == p + c as real * (q - p) / T as real
    ensures q - Interp(T, c, p, q) == (T - c) as real * (q - p) / T as real
  {
    var tr, cr := T as real, c as real;
    assert (tr - cr) * p + cr * q == tr * p + cr * (q - p);
    assert (tr * p + cr * (q - p)) / tr == p + cr * (q - p) / tr;
    assert (tr - cr) * p + cr * q == tr * q - (tr - cr) * (q - p);
    assert (tr * q - (tr - cr) * (q - p)) / tr == q - (tr - cr) * (q - p) / tr;
  }

  /** For counts from 0 to T the interpolation lies between its two ends. */
  lemma InterpBetween(T: int, c: int, p: real, q: real)
    requires T > 0 && 0 <= c <= T
    ensures p <= q ==> p <= Interp(T, c, p, q) <= q
    ensures q <= p ==> q <= Interp(T, c, p, q) <= p
  {
    InterpOffset(T, c, p, q);
    var tr, cr, kr := T as real, c as real, (T - c) as real;
    var x := Interp(T, c, p, q);
    var done, left := cr * (q - p), kr * (q - p);
    assert x - p == done / tr;
    assert q - x == left / tr;
    if p <= q {
      ProductNonNegative(cr, q - p);
      ProductNonNegative(kr, q - p);
      QuotientNonNegative(done, tr);
      QuotientNonNegative(left, tr);
    } else {
      ProductNonNegative(cr, p - q);
      ProductNonNegative(kr, p - q);
      assert done == -(cr * (p - q)) && left == -(kr * (p - q));
      QuotientNonNegative(-done, tr);
      QuotientNonNegative(-left, tr);
      assert (-done) / tr == -(done / tr);
      assert (-left) / tr == -(left / tr);
    }
  }

  /** Before count T the interpolation has not reached a different end. */
  lemma InterpShort(T: int, c: int, p: real, q: real)
    requires T > 0 && 0 <= c < T && p != q
    ensures Interp(T, c, p, q) != q
  {
    InterpOffset(T, c, p, q);
    var kr := (T - c) as real;
    ProductNonZero(kr, q - p);
    QuotientNonZero(kr * (q - p), T as real);
  }

  lemma ProductNonNegative(a: real, b: real)
    requires a >= 0.0 && b >= 0.0
    ensures a * b >= 0.0
  {
  }

  lemma QuotientNonNegative(a: real, b: real)
    requires a >= 0.0 && b > 0.0
    ensures a / b >= 0.0
  {
  }

  lemma ProductNonZero(a: real, b: real)
    requires a != 0.0 && b != 0.0
    ensures a * b != 0.0
  {
  }

  lemma QuotientNonZero(a: real, b: real)
    requires a != 0.0 && b > 0.0
    ensures a / b != 0.0
  {
  }

  /** The magnitude of a quotient by a positive number is the quotient of the magnitude. */
  lemma QuotientMagnitude(s: real, t: real)
    requires t > 0.0
    ensures (if s / t < 0.0 then -(s / t) else s / t) == (if s < 0.0 then -s else s) / t
  {
    if s < 0.0 {
      QuotientNonNegative(-s, t);
      assert (-s) / t == -(s / t);
    } else {
      QuotientNonNegative(s, t);
    }
  }

  /** The initial state (all three fields zero) satisfies the invariant. */
  lemma InitialState(T: int)
    requires T > 1
    ensures Inv(T, Glide(0.0, 0.0, 0)) && Current(T, Glide(0.0, 0.0, 0)) == 0.0
  {
  }

  /** At rest with the request equal to the prior value, a tick outputs the request and changes nothing. */
  lemma QuiescentTick(T: int, g: Glide, r: real)
    requires T > 1 && Inv(T, g)
    requires g.count == 0 && r == g.prior
    ensures Advance(T, g, r) == Tick(g, r)
    ensures r == g.target
  {
  }

  /**
   * At rest with a different request, a glide starts: the target becomes the
   * request, the output is one T-th of the way there (count 1) and the count
   * is left at 2, unless T is 2, when the glide is already over.
   */
  lemma GlideStart(T: int, g: Glide, r: real)
    requires T > 1 && Inv(T, g)
    requires g.count == 0 && r != g.prior
    ensures var t := Advance(T, g, r);
      && t.out == g.prior + (r - g.prior) / T as real
      && t.out != g.prior
      && (T > 2 ==> t.next == Glide(g.prior, r, 2))
      && (T == 2 ==> t.next == Glide(t.out, t.out, 0))
  {
    InterpOffset(T, 1, g.prior, r);
  }

  /**
   * Mid-glide with a changed request, the glide retargets: the new prior is
   * the old glide's interpolation at the current count, the target is the
   * request, the count restarts (and is left at 1), and the output is that
   * new prior, one step of the old glide beyond the previous output.
   */
  lemma Retarget(T: int, g: Glide, r: real)
    requires T > 1 && Inv(T, g)
    requires g.count != 0 && r != g.target
    ensures var t := Advance(T, g, r);
      var lastKnown := Interp(T, g.count, g.prior, g.target);
      && t.next == Glide(lastKnown, r, 1)
      && t.out == lastKnown
      && t.out == Current(T, g) + (g.target - g.prior) / T as real
  {
    var lastKnown := Interp(T, g.count, g.prior, g.target);
    InterpStart(T, lastKnown, r);
    InterpNext(T, g.count - 1, g.prior, g.target);
  }

  /**
   * Every tick moves the output by exactly one T-th of the span of the glide
   * in force: nothing at rest, the new glide's span on a start, the current
   * glide's span while it goes on and also on a retarget tick.
   */
  lemma StepSize(T: int, g: Glide, r: real)
    requires T > 1 && Inv(T, g)
    ensures Advance(T, g, r).out - Current(T, g) == (Heading(g, r) - g.prior) / T as real
  {
    if g.count == 0 {
      if r != g.prior {
        InterpOffset(T, 1, g.prior, r);
      }
    } else if r == g.target {
      InterpNext(T, g.count - 1, g.prior, g.target);
    } else {
      Retarget(T, g, r);
    }
  }

  /** Hence the slew per tick is bounded by one T-th of the glide's span. */
  lemma BoundedSlew(T: int, g: Glide, r: real)
    requires T > 1 && Inv(T, g)
    ensures var d := Advance(T, g, r).out - Current(T, g);
      var s := Heading(g, r) - g.prior;
      (if d < 0.0 then -d else d) <= (if s < 0.0 then -s else s) / T as real
  {
    StepSize(T, g, r);
    QuotientMagnitude(Heading(g, r) - g.prior, T as real);
  }

  /**
   * Mid-glide (and on a start) the output is the interpolation at some count
   * from 0 to T - 1 between the glide's start and the current request, so it
   * lies between them; the start is the prior value, or on a retarget tick
   * the point the old glide had reached.
   */
  lemma OutputBetween(T: int, g: Glide, r: real)
    requires T > 1 && Inv(T, g)
    ensures var from := if g.count != 0 && r != g.target then Interp(T, g.count, g.prior, g.target) else g.prior;
      var c := if g.count == 0 then (if r == g.prior then 0 else 1) else if r == g.target then g.count else 0;
      var out := Advance(T, g, r).out;
      && 0 <= c <= T - 1
      && out == Interp(T, c, from, r)
      && (from <= r ==> from <= out <= r)
      && (r <= from ==> r <= out <= from)
  {
    var from := if g.count != 0 && r != g.target then Interp(T, g.count, g.prior, g.target) else g.prior;
    var c := if g.count == 0 then (if r == g.prior then 0 else 1) else if r == g.target then g.count else 0;
    if g.count == 0 && r == g.prior {
      InterpStart(T, from, r);
    }
    InterpBetween(T, c, from, r);
  }

  /**
   * Completion: when a tick takes the count to T the glide settles. The
   * state rests with prior and target both equal to that tick's output, which
   * is T - 1 T-ths of the way from the prior to the target, so short of the
   * target whenever the two differ; the same request on the next tick then
   * starts a new glide from there.
   */
  lemma Completion(T: int, g: Glide, r: real)
    requires T > 1 && Inv(T, g)
    requires g.count == T - 1 && r == g.target
    ensures var t := Advance(T, g, r);
      && t.next == Glide(t.out, t.out, 0)
      && t.out == g.prior + (T - 1) as real * (g.target - g.prior) / T as real
      && (g.prior != g.target ==> t.out != r && Advance(T, t.next, r).out == Interp(T, 1, t.out, r))
  {
    InterpOffset(T, T - 1, g.prior, g.target);
  }

  /** The invariant holds after any run of ticks from a state that satisfies it. */
  lemma {:induction false} RunKeepsInvariant(T: int, g: Glide, requests: seq<real>)
    requires T > 1 && Inv(T, g)
    ensures Inv(T, Run(T, g, requests).final)
    decreases |requests|
  {
    if requests != [] {
      RunKeepsInvariant(T, Advance(T, g, requests[0]).next, requests[1..]);
    }
  }

  /** Running requests a then b is running a, then b from where a left off. */
  lemma {:induction false} RunAppend(T: int, g: Glide, a: seq<real>, b: seq<real>)
    requires T > 1
    ensures var ra := Run(T, g, a);
      var rb := Run(T, ra.final, b);
      Run(T, g, a + b) == Trace(rb.final, ra.outputs + rb.outputs)
    decreases |a|
  {
    if a == [] {
      assert a + b == b;
    } else {
      assert (a + b)[0] == a[0];
      assert (a + b)[1..] == a[1..] + b;
      RunAppend(T, Advance(T, g, a[0]).next, a[1..], b);
    }
  }

  /** At rest, any number of ticks requesting the resting value output it and leave the state as it was. */
  lemma {:induction false} QuiescentRun(T: int, v: real, n: nat)
    requires T > 1
    ensures Run(T, Glide(v, v, 0), Constant(v, n)) == Trace(Glide(v, v, 0), Constant(v, n))
    decreases n
  {
    if n > 0 {
      assert Constant(v, n)[1..] == Constant(v, n - 1);
      QuiescentRun(T, v, n - 1);
      assert [v] + Constant(v, n - 1) == Constant(v, n);
    }
  }

  /**
   * A glide at count c with an unchanged request outputs the interpolation at
   * counts c, c + 1, ...; when the count reaches T it settles at the output
   * for count T - 1.
   */
  lemma {:induction false} GlideRun(T: int, p: real, r: real, c: int, n: nat)
    requires T > 1 && 1 <= c < T && c + n <= T
    ensures var tr := Run(T, Glide(p, r, c), Constant(r, n));
      var o := Interp(T, T - 1, p, r);
      && (forall i :: 0 <= i < n ==> tr.outputs[i] == Interp(T, c + i, p, r))
      && tr.final == if c + n < T then Glide(p, r, c + n) else Glide(o, o, 0)
    decreases n
  {
    if n > 0 {
      var t := Advance(T, Glide(p, r, c), r);
      assert Constant(r, n)[1..] == Constant(r, n - 1);
      if c + 1 < T {
        assert t.next == Glide(p, r, c + 1);
        GlideRun(T, p, r, c + 1, n - 1);
      } else {
        assert n == 1 && Constant(r, n - 1) == [];
      }
    }
  }

  /**
   * From rest at p, T - 1 ticks requesting r != p output the interpolation at
   * counts 1 .. T - 1 and leave the controller at rest at the last of them,
   * one T-th of the gap short of r.
   */
  lemma FullGlide(T: int, p: real, r: real)
    requires T > 1 && p != r
    ensures var tr := Run(T, Glide(p, p, 0), Constant(r, T - 1));
      var o := Interp(T, T - 1, p, r);
      && (forall i :: 0 <= i < T - 1 ==> tr.outputs[i] == Interp(T, i + 1, p, r))
      && tr.final == Glide(o, o, 0)
      && r - o == (r - p) / T as real
  {
    var t := Advance(T, Glide(p, p, 0), r);
    assert Constant(r, T - 1)[1..] == Constant(r, T - 2);
    if T > 2 {
      assert t.next == Glide(p, r, 2);
      GlideRun(T, p, r, 2, T - 2);
    }
    InterpOffset(T, T - 1, p, r);
  }

  /**
   * So T ticks of an unchanged request never land on it: the T-th output is
   * already the first step of a second glide over the remaining gap.
   */
  lemma NeverLandsOnRequest(T: int, p: real, r: real)
    requires T > 1 && p != r
    ensures var tr := Run(T, Glide(p, p, 0), Constant(r, T));
      var o := Interp(T, T - 1, p, r);
      && tr.outputs[T - 1] == Interp(T, 1, o, r)
      && tr.outputs[T - 1] != r
  {
    var o := Interp(T, T - 1, p, r);
    FullGlide(T, p, r);
    assert Constant(r, T) == Constant(r, T - 1) + [r];
    RunAppend(T, Glide(p, p, 0), Constant(r, T - 1), [r]);
    InterpShort(T, T - 1, p, r);
    assert Run(T, Glide(o, o, 0), [r]).outputs == [Interp(T, 1, o, r)];
    InterpShort(T, 1, o, r);
  }

  /**
   * Ten-tick glides from 0 towards 5: the outputs climb 0.5, 1.0, ..., 4.5
   * over nine ticks, the controller settles at 4.5, and the tenth tick
   * outputs 4.55, not 5.
   */
  lemma TenTickExample()
    ensures var tr := Run(10, Glide(0.0, 0.0, 0), Constant(5.0, 10));
      && (forall i :: 0 <= i < 9 ==> tr.outputs[i] == (i + 1) as real / 2.0)
      && tr.outputs[9] == 4.55
  {
    var tr := Run(10, Glide(0.0, 0.0, 0), Constant(5.0, 10));
    var nine := Run(10, Glide(0.0, 0.0, 0), Constant(5.0, 9));
    FullGlide(10, 0.0, 5.0);
    assert Constant(5.0, 10) == Constant(5.0, 9) + [5.0];
    RunAppend(10, Glide(0.0, 0.0, 0), Constant(5.0, 9), [5.0]);
    assert Interp(10, 9, 0.0, 5.0) == 4.5;
    assert nine.final == Glide(4.5, 4.5, 0);
    assert Run(10, nine.final, [5.0]).outputs == [Interp(10, 1, 4.5, 5.0)];
    assert Interp(10, 1, 4.5, 5.0) == 4.55;
    forall i | 0 <= i < 9
      ensures tr.outputs[i] == (i + 1) as real / 2.0
    {
      assert tr.outputs[i] == nine.outputs[i] == Interp(10, i + 1, 0.0, 5.0);
    }
  }
}
