/**
 The streaming resampler of src/audio_core/interpolate.cpp.  Positions are fixed point with 24
 fractional bits in a 64-bit unsigned integer; the step size, which the source computes
 from a float rate, is a parameter.
 */
module Interpolate {

  const SCALE := 0x100_0000
  const TWO64 := 0x1_0000_0000_0000_0000

  datatype Stereo = Stereo(left: int, right: int)

  /** An interpolation function: the fraction and three adjacent samples to one output sample. */
  type Kernel = (nat, Stereo, Stereo, Stereo) -> Stereo

  /** Everything a call leaves behind for the next one: two old samples, the position, the unused input. */
  datatype Resampler = Resampler(xn2: Stereo, xn1: Stereo, fposition: nat, input: seq<Stereo>) {
    function Stream(): (s: seq<Stereo>)
      ensures |s| >= 2
    {
      [xn2, xn1] + input
    }
  }

  /** One call: `samples` are appended to the input, then at most `room` output samples are made. */
  datatype Feed = Feed(samples: seq<Stereo>, room: nat)

  // ----- what a call computes -----

  /** The value of `v` in unsigned 64-bit arithmetic. */
  function Wrap64(v: int): (r: nat)
    ensures r < TWO64
  {
    v % TWO64
  }

  lemma Wrap64Small(v: int)
    requires 0 <= v < TWO64
    ensures Wrap64(v) == v
  {
  }

  datatype Walked = Walked(outs: seq<Stereo>, at: nat, fposition: nat)

  /** The loop over `x` from position `p`; `at` is the input index of the sample made last. */
  function Walk(fn: Kernel, x: seq<Stereo>, p: nat, step: nat, room: nat, at: nat): (w: Walked)
    requires at + 2 <= |x| && p < TWO64
    ensures w.at + 2 <= |x| && w.fposition < TWO64
    decreases room
  {
    if room == 0 then Walked([], at, p)
    else
      var i := p / SCALE;
      if i + 2 >= |x| then Walked([], |x| - 2, p)
      else
        var w := Walk(fn, x, Wrap64(p + step), step, room - 1, i);
        w.(outs := [fn(p % SCALE, x[i], x[i + 1], x[i + 2])] + w.outs)
  }

  lemma WalkUnfold(fn: Kernel, x: seq<Stereo>, p: nat, step: nat, room: nat, at: nat)
    requires at + 2 <= |x| && p < TWO64
    ensures var i := p / SCALE;
      Walk(fn, x, p, step, room, at) ==
      if room == 0 then Walked([], at, p)
      else if i + 2 >= |x| then Walked([], |x| - 2, p)
      else
        var w := Walk(fn, x, Wrap64(p + step), step, room - 1, i);
        w.(outs := [fn(p % SCALE, x[i], x[i + 1], x[i + 2])] + w.outs)
  {
  }

  function Call(fn: Kernel, r: Resampler, step: nat, room: nat): (c: (Resampler, seq<Stereo>))
    requires r.fposition < TWO64
    ensures c.0.fposition < TWO64
  {
    if r.input == [] then (r, []) else
      var x := r.Stream();
      var w := Walk(fn, x, r.fposition, step, room, 0);
      (Resampler(x[w.at], x[w.at + 1], Wrap64(w.fposition - w.at * SCALE), x[w.at + 2..]), w.outs)
  }

  function Run(fn: Kernel, r: Resampler, step: nat, feeds: seq<Feed>): (c: (Resampler, seq<Stereo>))
    requires r.fposition < TWO64
    ensures c.0.fposition < TWO64
    decreases |feeds|
  {
    if feeds == [] then (r, []) else
      var (q, outs) := Call(fn, r.(input := r.input + feeds[0].samples), step, feeds[0].room);
      var (final, more) := Run(fn, q, step, feeds[1..]);
      (final, outs + more)
  }

  function Samples(feeds: seq<Feed>): seq<Stereo> {
    if feeds == [] then [] else feeds[0].samples + Samples(feeds[1..])
  }

  // ----- what the output should be -----

  /** Position `p` lies far enough before the end of `x`. */
  predicate Covered(x: seq<Stereo>, p: nat) {
    p / SCALE + 2 < |x|
  }

  /** The output sample at absolute position `p` of the stream `x`. */
  function Tap(fn: Kernel, x: seq<Stereo>, p: nat): Stereo
    requires Covered(x, p)
  {
    fn(p % SCALE, x[p / SCALE], x[p / SCALE + 1], x[p / SCALE + 2])
  }

  /** Position `p` after `n` steps. */
  function Pos(p: nat, step: nat, n: nat): nat {
    p + n * step
  }

  lemma PosAdd(p: nat, step: nat, a: nat, b: nat)
    ensures Pos(Pos(p, step, a), step, b) == Pos(p, step, a + b)
    ensures Pos(p, step, 0) == p && Pos(p, step, 1) == p + step
  {
  }

  lemma PosShift(p: nat, step: nat, n: nat, d: nat)
    ensures Pos(p + d * SCALE, step, n) == Pos(p, step, n) + d * SCALE
  {
  }

  lemma ShiftPosition(q: nat, d: nat)
    ensures (q + d * SCALE) / SCALE == q / SCALE + d && (q + d * SCALE) % SCALE == q % SCALE
  {
  }

  /** `outs` are the samples at positions p, p + step, p + 2 * step, ... of `x`. */
  ghost predicate AreTaps(fn: Kernel, x: seq<Stereo>, p: nat, step: nat, outs: seq<Stereo>) {
    forall j {:trigger outs[j]} {:trigger Pos(p, step, j)} :: 0 <= j < |outs| ==>
      Covered(x, Pos(p, step, j)) && outs[j] == Tap(fn, x, Pos(p, step, j))
  }

  /** No position in the stream, nor the one after it, leaves the 64-bit range. */
  ghost predicate Fits(x: seq<Stereo>, step: nat) {
    |x| * SCALE + step <= TWO64
  }

  lemma TapsConcat(fn: Kernel, x: seq<Stereo>, p: nat, step: nat, a: seq<Stereo>, b: seq<Stereo>)
    requires AreTaps(fn, x, p, step, a) && AreTaps(fn, x, Pos(p, step, |a|), step, b)
    ensures AreTaps(fn, x, p, step, a + b)
  {
    hide Pos, Covered, Tap;
    forall j | 0 <= j < |a + b| ensures Covered(x, Pos(p, step, j)) && (a + b)[j] == Tap(fn, x, Pos(p, step, j)) {
      if j >= |a| {
        PosAdd(p, step, |a|, j - |a|);
        assert (a + b)[j] == b[j - |a|];
      } else {
        assert (a + b)[j] == a[j];
      }
    }
  }

  lemma TapsOne(fn: Kernel, x: seq<Stereo>, p: nat, step: nat)
    requires Covered(x, p)
    ensures AreTaps(fn, x, p, step, [Tap(fn, x, p)])
  {
    PosAdd(p, step, 0, 0);
  }

  lemma CoveredBound(x: seq<Stereo>, p: nat)
    requires Covered(x, p)
    ensures p < |x| * SCALE && (p / SCALE) * SCALE <= p && p / SCALE + 2 < |x|
  {
  }

  lemma {:induction false} WalkTaps(fn: Kernel, x: seq<Stereo>, p: nat, step: nat, room: nat, at: nat)
    requires at + 2 <= |x| && at * SCALE <= p < TWO64 && Fits(x, step)
    ensures var w := Walk(fn, x, p, step, room, at);
      && AreTaps(fn, x, p, step, w.outs) && |w.outs| <= room
      && w.fposition == Pos(p, step, |w.outs|) && w.at * SCALE <= w.fposition
      && (|w.outs| < room ==> !Covered(x, w.fposition) && w.at + 2 == |x|)
    decreases room
  {
    hide Pos, AreTaps, Walk, Tap, Covered;
    PosAdd(p, step, 0, 0);
    if room == 0 || !Covered(x, p) {
      NoTaps(fn, x, p, step);
      WalkStops(fn, x, p, step, room, at);
    } else {
      CoveredBound(x, p);
      WalkGoesOn(fn, x, p, step, room, at);
      WalkTaps(fn, x, p + step, step, room - 1, p / SCALE);
      var w := Walk(fn, x, p + step, step, room - 1, p / SCALE);
      TapsOne(fn, x, p, step);
      TapsConcat(fn, x, p, step, [Tap(fn, x, p)], w.outs);
      PosAdd(p, step, 1, |w.outs|);
    }
  }

  lemma {:induction false} WalkStops(fn: Kernel, x: seq<Stereo>, p: nat, step: nat, room: nat, at: nat)
    requires at + 2 <= |x| && at * SCALE <= p < TWO64 && (room == 0 || !Covered(x, p))
    ensures var w := Walk(fn, x, p, step, room, at);
      w.outs == [] && w.fposition == p && w.at * SCALE <= p && (room > 0 ==> w.at + 2 == |x|)
  {
    var i := p / SCALE;
    assert i * SCALE <= p;
  }

  lemma WalkGoesOn(fn: Kernel, x: seq<Stereo>, p: nat, step: nat, room: nat, at: nat)
    requires at + 2 <= |x| && p + step < TWO64 && room > 0 && Covered(x, p)
    ensures var w := Walk(fn, x, p + step, step, room - 1, p / SCALE);
      Walk(fn, x, p, step, room, at) == w.(outs := [Tap(fn, x, p)] + w.outs)
  {
    Wrap64Small(p + step);
  }

  lemma NoTaps(fn: Kernel, x: seq<Stereo>, p: nat, step: nat)
    ensures AreTaps(fn, x, p, step, [])
  {
  }

  // ----- one call in a longer stream -----

  lemma TapOfPart(fn: Kernel, x: seq<Stereo>, y: seq<Stereo>, d: nat, p: nat)
    requires d + |y| <= |x| && x[d..d + |y|] == y && Covered(y, p)
    ensures Covered(x, p + d * SCALE) && Tap(fn, x, p + d * SCALE) == Tap(fn, y, p)
  {
    ShiftPosition(p, d);
    var i := p / SCALE;
    assert y[i] == x[d + i] && y[i + 1] == x[d + i + 1] && y[i + 2] == x[d + i + 2];
  }

  /** Taps of the part of a stream that is still at hand are taps of the stream. */
  lemma TapsOfPart(fn: Kernel, x: seq<Stereo>, y: seq<Stereo>, d: nat, q: nat, step: nat, outs: seq<Stereo>)
    requires d + |y| <= |x| && x[d..d + |y|] == y && AreTaps(fn, y, q, step, outs)
    ensures AreTaps(fn, x, q + d * SCALE, step, outs)
  {
    hide Pos, Covered, Tap;
    var p := q + d * SCALE;
    forall j | 0 <= j < |outs|
      ensures Covered(x, Pos(p, step, j)) && outs[j] == Tap(fn, x, Pos(p, step, j))
    {
      PosShift(q, step, j, d);
      TapOfPart(fn, x, y, d, Pos(q, step, j));
    }
    assert AreTaps(fn, x, p, step, outs);
  }

  /** `r` holds the samples of `x` from `d` on, as far as they have arrived, and its position there is `p`. */
  ghost predicate Stands(r: Resampler, x: seq<Stereo>, d: nat, p: nat) {
    d + |r.Stream()| <= |x| && r.Stream() == x[d..d + |r.Stream()|] && r.fposition + d * SCALE == p
  }

  /** A call drops samples from the front and moves on by as many steps as it makes samples. */
  lemma CallMoves(fn: Kernel, r: Resampler, step: nat, room: nat)
    requires r.fposition < TWO64 && Fits(r.Stream(), step)
    ensures var (q, outs) := Call(fn, r, step, room);
      && AreTaps(fn, r.Stream(), r.fposition, step, outs) && |q.Stream()| <= |r.Stream()|
      && Stands(q, r.Stream(), |r.Stream()| - |q.Stream()|, Pos(r.fposition, step, |outs|))
      && |q.Stream()| + (|r.Stream()| - |q.Stream()|) == |r.Stream()|
  {
    hide AreTaps, Pos, Walk, Wrap64;
    var y := r.Stream();
    if r.input == [] {
      NoTaps(fn, y, r.fposition, step);
      PosAdd(r.fposition, step, 0, 0);
      assert y[0..] == y;
    } else {
      WalkTaps(fn, y, r.fposition, step, room, 0);
      var w := Walk(fn, y, r.fposition, step, room, 0);
      Wrap64Small(w.fposition - w.at * SCALE);
      Rebased(y, w.at, w.fposition);
    }
  }

  /** Dropping the first `at` samples and rebasing the position by them. */
  lemma Rebased(y: seq<Stereo>, at: nat, p: nat)
    requires at + 2 <= |y| && at * SCALE <= p
    ensures var q := Resampler(y[at], y[at + 1], p - at * SCALE, y[at + 2..]);
      |q.Stream()| == |y| - at && Stands(q, y, |y| - |q.Stream()|, p)
  {
    var q := Resampler(y[at], y[at + 1], p - at * SCALE, y[at + 2..]);
    assert q.Stream() == y[at..] && y[at..|y|] == y[at..];
  }

  lemma SliceOfSlice<T>(x: seq<T>, d: nat, m: nat, e: nat, n: nat)
    requires d + m <= |x| && e + n <= m
    ensures x[d..d + m][e..e + n] == x[d + e..d + e + n]
  {
    var y := x[d..d + m];
    var a, b := y[e..e + n], x[d + e..d + e + n];
    forall k | 0 <= k < n ensures a[k] == b[k] {
      assert y[e + k] == x[d + e + k];
    }
  }

  lemma StandsInside(q: Resampler, y: seq<Stereo>, e: nat, p: nat, x: seq<Stereo>, d: nat)
    requires Stands(q, y, e, p) && d + |y| <= |x| && y == x[d..d + |y|]
    ensures Stands(q, x, d + e, p + d * SCALE)
  {
    var n := |q.Stream()|;
    assert n + e <= |y|;
    SliceOfSlice(x, d, |y|, e, n);
  }

  lemma CallStands(fn: Kernel, r: Resampler, step: nat, room: nat, x: seq<Stereo>, d: nat, p: nat)
    requires r.fposition < TWO64 && Fits(r.Stream(), step) && Stands(r, x, d, p)
    ensures var (q, outs) := Call(fn, r, step, room);
      && AreTaps(fn, x, p, step, outs) && |q.Stream()| <= |r.Stream()|
      && Stands(q, x, d + |r.Stream()| - |q.Stream()|, Pos(p, step, |outs|))
  {
    hide AreTaps, Pos, Call;
    var y := r.Stream();
    CallMoves(fn, r, step, room);
    var (q, outs) := Call(fn, r, step, room);
    TapsOfPart(fn, x, y, d, r.fposition, step, outs);
    PosShift(r.fposition, step, |outs|, d);
    StandsInside(q, y, |y| - |q.Stream()|, Pos(r.fposition, step, |outs|), x, d);
  }

  // ----- any run -----

  /** What each call finds in front of it fits; the run as a whole may be of any length. */
  ghost predicate CallsFit(fn: Kernel, r: Resampler, step: nat, feeds: seq<Feed>)
    requires r.fposition < TWO64
    decreases |feeds|
  {
    feeds == [] ||
    var fed := r.(input := r.input + feeds[0].samples);
    Fits(fed.Stream(), step) && CallsFit(fn, Call(fn, fed, step, feeds[0].room).0, step, feeds[1..])
  }

  lemma FedStands(r: Resampler, samples: seq<Stereo>, rest: seq<Stereo>, x: seq<Stereo>, d: nat, p: nat)
    requires Stands(r, x, d, p) && x[d + |r.Stream()|..] == samples + rest
    ensures var fed := r.(input := r.input + samples);
      Stands(fed, x, d, p) && x[d + |fed.Stream()|..] == rest
  {
    var n := d + |r.Stream()|;
    var fed := r.(input := r.input + samples);
    assert fed.Stream() == r.Stream() + samples;
    assert x[n..][..|samples|] == samples && x[n..][|samples|..] == rest;
    assert x[n..n + |samples|] == samples && x[n + |samples|..] == rest;
    assert x[d..n + |samples|] == x[d..n] + x[n..n + |samples|];
  }

  lemma {:induction false} RunStands(fn: Kernel, r: Resampler, step: nat, feeds: seq<Feed>, x: seq<Stereo>,
                                     d: nat, p: nat)
    requires r.fposition < TWO64 && CallsFit(fn, r, step, feeds)
    requires Stands(r, x, d, p) && x[d + |r.Stream()|..] == Samples(feeds)
    ensures var (q, outs) := Run(fn, r, step, feeds);
      && AreTaps(fn, x, p, step, outs)
      && |q.Stream()| <= |x| && Stands(q, x, |x| - |q.Stream()|, Pos(p, step, |outs|))
    decreases |feeds|
  {
    hide AreTaps, Pos, Call, Resampler.Stream;
    if feeds == [] {
      NoTaps(fn, x, p, step);
      PosAdd(p, step, 0, 0);
    } else {
      var fed := r.(input := r.input + feeds[0].samples);
      FedStands(r, feeds[0].samples, Samples(feeds[1..]), x, d, p);
      CallStands(fn, fed, step, feeds[0].room, x, d, p);
      var (q, outs) := Call(fn, fed, step, feeds[0].room);
      var e := d + |fed.Stream()| - |q.Stream()|;
      RunStands(fn, q, step, feeds[1..], x, e, Pos(p, step, |outs|));
      var (final, more) := Run(fn, q, step, feeds[1..]);
      TapsConcat(fn, x, p, step, outs, more);
      PosAdd(p, step, |outs|, |more|);
    }
  }

  /**
   However the input is cut into calls and whatever room each has: the j-th output is the sample at position
   p0 + j * step of the whole stream, and what is left over is a suffix of the stream, its position rebased by
   exactly the samples dropped.
   */
  lemma {:induction false} RunIsTaps(fn: Kernel, r: Resampler, step: nat, feeds: seq<Feed>)
    requires r.fposition < TWO64 && CallsFit(fn, r, step, feeds)
    ensures var x := r.Stream() + Samples(feeds);
      var (q, outs) := Run(fn, r, step, feeds);
      && AreTaps(fn, x, r.fposition, step, outs)
      && |q.Stream()| <= |x| && q.Stream() == x[|x| - |q.Stream()|..]
      && q.fposition + (|x| - |q.Stream()|) * SCALE == r.fposition + |outs| * step
  {
    hide AreTaps, Run, CallsFit, Samples, Resampler.Stream, Stands, Pos;
    var x := r.Stream() + Samples(feeds);
    StandsAtStart(r, Samples(feeds));
    RunStands(fn, r, step, feeds, x, 0, r.fposition);
    var (q, outs) := Run(fn, r, step, feeds);
    StandsAtEnd(q, x, Pos(r.fposition, step, |outs|));
    PosIs(r.fposition, step, |outs|);
  }

  lemma StandsAtStart(r: Resampler, more: seq<Stereo>)
    ensures Stands(r, r.Stream() + more, 0, r.fposition)
    ensures (r.Stream() + more)[0 + |r.Stream()|..] == more
  {
  }

  lemma StandsAtEnd(q: Resampler, x: seq<Stereo>, p: nat)
    requires |q.Stream()| <= |x| && Stands(q, x, |x| - |q.Stream()|, p)
    ensures q.Stream() == x[|x| - |q.Stream()|..] && q.fposition + (|x| - |q.Stream()|) * SCALE == p
  {
  }

  lemma PosIs(p: nat, step: nat, n: nat)
    ensures Pos(p, step, n) == p + n * step
  {
  }

  /** All input is used: no further sample can be made. */
  predicate IsDry(r: Resampler) {
    !Covered(r.Stream(), r.fposition)
  }

  /** Two ways of cutting the same input agree as far as both go, and entirely once both have used it up. */
  lemma {:induction false} SplitDoesNotMatter(fn: Kernel, r: Resampler, step: nat, feeds: seq<Feed>, feeds': seq<Feed>)
    requires r.fposition < TWO64 && Samples(feeds) == Samples(feeds')
    requires CallsFit(fn, r, step, feeds) && CallsFit(fn, r, step, feeds')
    ensures var (q, outs) := Run(fn, r, step, feeds);
      var (q', outs') := Run(fn, r, step, feeds');
      && (outs <= outs' || outs' <= outs)
      && (IsDry(q) ==> outs' <= outs)
      && (IsDry(q) && IsDry(q') ==> outs == outs')
  {
    hide Run, AreTaps;
    RunIsTaps(fn, r, step, feeds);
    RunIsTaps(fn, r, step, feeds');
    var x := r.Stream() + Samples(feeds);
    var (q, outs) := Run(fn, r, step, feeds);
    var (q', outs') := Run(fn, r, step, feeds');
    DryIsLongest(fn, x, r.fposition, step, q, outs, outs');
    DryIsLongest(fn, x, r.fposition, step, q', outs', outs);
  }

  lemma DryIsLongest(fn: Kernel, x: seq<Stereo>, p: nat, step: nat, q: Resampler, outs: seq<Stereo>,
                     others: seq<Stereo>)
    requires AreTaps(fn, x, p, step, outs) && AreTaps(fn, x, p, step, others)
    requires |q.Stream()| <= |x| && q.fposition + (|x| - |q.Stream()|) * SCALE == p + |outs| * step
    ensures |others| <= |outs| ==> others <= outs
    ensures IsDry(q) ==> |others| <= |outs|
  {
    ShiftPosition(q.fposition, |x| - |q.Stream()|);
    assert Pos(p, step, |outs|) == p + |outs| * step;
    if |others| <= |outs| {
      hide Covered, Tap, Pos;
      forall j | 0 <= j < |others| ensures others[j] == outs[j] {
        assert others[j] == Tap(fn, x, Pos(p, step, j));
      }
    } else {
      assert Covered(x, Pos(p, step, |outs|));
    }
  }

  // ----- the code -----

  class State {
    var xn1: Stereo
    var xn2: Stereo
    var fposition: nat

    constructor ()
      ensures xn1 == xn2 == Stereo(0, 0) && fposition == 0
    {
      xn1, xn2, fposition := Stereo(0, 0), Stereo(0, 0), 0;
    }
  }

  /** The caller's input queue. */
  class StereoBuffer {
    var samples: seq<Stereo>
  }

  ghost function View(state: State, input: StereoBuffer): Resampler
    reads state, input
  {
    Resampler(state.xn2, state.xn1, state.fposition, input.samples)
  }

  /** How many samples an output frame still takes. */
  function Room(output: array<Stereo>, outputi: nat): nat {
    if outputi < output.Length then output.Length - outputi else 0
  }

  /** The loop: makes samples of `x` from position `p0` on, as long as there is room and input. */
  method MakeSamples(x: seq<Stereo>, p0: nat, step: nat, output: array<Stereo>, outputi: nat, fn: Kernel)
    returns (next: nat, inputi: nat, fposition: nat)
    requires 2 <= |x| && p0 < TWO64 && step < TWO64
    modifies output
    ensures var w := Walk(fn, x, p0, step, Room(output, outputi), 0);
      && inputi == w.at && fposition == w.fposition && next == outputi + |w.outs|
      && (w.outs != [] ==> next <= output.Length && output[outputi..next] == w.outs)
    ensures forall k :: 0 <= k < output.Length && !(outputi <= k < next) ==> output[k] == old(output[k])
  {
    hide Walk, Wrap64;
    ghost var goal := Walk(fn, x, p0, step, Room(output, outputi), 0);
    next, inputi, fposition := outputi, 0, p0;
    ghost var made: seq<Stereo> := [];
    while next < output.Length
      invariant fposition < TWO64 && inputi + 2 <= |x|
      invariant next == outputi + |made| && (made != [] ==> next <= output.Length)
      invariant forall k :: 0 <= k < |made| ==> output[outputi + k] == made[k]
      invariant forall k :: 0 <= k < output.Length && !(outputi <= k < next) ==> output[k] == old(output[k])
      invariant var w := Walk(fn, x, fposition, step, Room(output, next), inputi); goal == w.(outs := made + w.outs)
    {
      WalkUnfold(fn, x, fposition, step, Room(output, next), inputi);
      inputi := fposition / SCALE;
      if inputi + 2 >= |x| {
        inputi := |x| - 2;
        break;
      }
      var fraction := fposition % SCALE;
      var sample := fn(fraction, x[inputi], x[inputi + 1], x[inputi + 2]);
      output[next] := sample;
      next := next + 1;
      fposition := Wrap64(fposition + step);
      ghost var more := Walk(fn, x, fposition, step, Room(output, next), inputi).outs;
      assert made + ([sample] + more) == made + [sample] + more;
      made := made + [sample];
    }
    WalkUnfold(fn, x, fposition, step, Room(output, next), inputi);
    assert made + [] == made;
  }

  /** Steps over the input, writing samples from output[outputi] on; returns the next free index. */
  method StepOverSamples(state: State, input: StereoBuffer, step: nat, output: array<Stereo>, outputi: nat, fn: Kernel)
    returns (next: nat)
    requires state.fposition < TWO64 && step < TWO64
    modifies state, input, output
    ensures var (q, outs) := Call(fn, old(View(state, input)), step, Room(output, outputi));
      && View(state, input) == q && next == outputi + |outs|
      && (outs != [] ==> next <= output.Length && output[outputi..next] == outs)
    ensures forall k :: 0 <= k < output.Length && !(outputi <= k < next) ==> output[k] == old(output[k])
  {
    hide Walk, Wrap64;
    if input.samples == [] { return outputi; }
    input.samples := [state.xn2, state.xn1] + input.samples;
    var inputi, fposition;
    next, inputi, fposition := MakeSamples(input.samples, state.fposition, step, output, outputi, fn);
    state.xn2 := input.samples[inputi];
    state.xn1 := input.samples[inputi + 1];
    state.fposition := Wrap64(fposition - inputi * SCALE);
    input.samples := input.samples[inputi + 2..];
  }

  // ----- the interpolation functions -----

  predicate IsS16(v: int) {
    -0x8000 <= v <= 0x7FFF
  }

  function Clamp(v: int, lo: int, hi: int): int
    requires lo <= hi
  {
    if v < lo then lo else if v > hi then hi else v
  }

  /** The value of the low 16 bits of `v` as a signed number: the conversion to s16. */
  function ToS16(v: int): int {
    var low := v % 0x10000;
    if low < 0x8000 then low else low - 0x10000
  }

  function Hold(fraction: nat, x0: Stereo, x1: Stereo, x2: Stereo): Stereo {
    x0
  }

  /** One channel of linear interpolation as the machine does it: all in unsigned 64-bit arithmetic. */
  function LinearChannel(fraction: nat, x0: int, x1: int): int {
    var delta := Clamp(x1 - x0, -32768, 32767);
    var product := Wrap64(fraction * delta);
    ToS16(Wrap64(x0 + product / SCALE))
  }

  function Linear(fraction: nat, x0: Stereo, x1: Stereo, x2: Stereo): Stereo {
    Stereo(LinearChannel(fraction, x0.left, x1.left), LinearChannel(fraction, x0.right, x1.right))
  }

  /** What it means: the floor of the weighted difference, which saturates. */
  function Between(fraction: nat, x0: int, x1: int): int {
    x0 + fraction * Clamp(x1 - x0, -32768, 32767) / SCALE
  }

  lemma ScaledBounds(fraction: nat, delta: int)
    requires fraction < SCALE && -0x8000 <= delta <= 0x7FFF
    ensures delta <= fraction * delta / SCALE <= 0 || 0 <= fraction * delta / SCALE <= delta
    ensures -TWO64 < fraction * delta < TWO64
  {
    var product := fraction * delta;
    if delta >= 0 {
      Monotone(fraction, SCALE, delta);
      assert 0 <= product <= SCALE * delta;
    } else {
      Monotone(fraction, SCALE, -delta);
      assert product == -(fraction * -delta);
      assert SCALE * delta <= product <= 0;
    }
  }

  lemma Monotone(a: nat, b: nat, c: nat)
    requires a <= b
    ensures 0 <= a * c <= b * c
  {
  }

  /** Reducing modulo 2^64, dividing by 2^24 and reducing modulo 2^16 loses nothing that matters. */
  lemma WrappedQuotient(product: int, x0: int)
    requires -TWO64 <= product < TWO64
    ensures Wrap64(x0 + Wrap64(product) / SCALE) % 0x10000 == (x0 + product / SCALE) % 0x10000
  {
    hide Wrap64;
    var q := product / SCALE;
    QuotientWraps(product);
    ModOfMod(x0 + Wrap64(product) / SCALE);
    Mod16Shift(x0 + q);
  }

  lemma QuotientWraps(product: int)
    requires -TWO64 <= product < TWO64
    ensures Wrap64(product) / SCALE == product / SCALE + if product < 0 then 0x100_0000_0000 else 0
  {
    if product < 0 {
      assert product % TWO64 == product + TWO64;
      assert TWO64 == 0x100_0000_0000 * SCALE;
    }
  }

  lemma Mod16Shift(v: int)
    ensures (v + 0x100_0000_0000) % 0x10000 == v % 0x10000
  {
  }

  lemma ModOfMod(v: int)
    ensures Wrap64(v) % 0x10000 == v % 0x10000
  {
    var m := v / TWO64;
    assert v == m * TWO64 + v % TWO64;
    assert TWO64 == 0x1_0000_0000_0000 * 0x10000;
    assert v == (m * 0x1_0000_0000_0000) * 0x10000 + v % TWO64;
  }

  lemma ToS16Exact(v: int, w: int)
    requires v % 0x10000 == w % 0x10000 && IsS16(w)
    ensures ToS16(v) == w
  {
  }

  /** The unsigned arithmetic gives the signed result, and it lies between the two samples. */
  lemma LinearIsBetween(fraction: nat, x0: int, x1: int)
    requires fraction < SCALE && IsS16(x0) && IsS16(x1)
    ensures LinearChannel(fraction, x0, x1) == Between(fraction, x0, x1)
    ensures LiesBetween(Between(fraction, x0, x1), x0, x1)
  {
    hide ToS16, Wrap64;
    var delta := Clamp(x1 - x0, -32768, 32767);
    ScaledBounds(fraction, delta);
    var product := fraction * delta;
    WrappedQuotient(product, x0);
    ToS16Exact(Wrap64(x0 + Wrap64(product) / SCALE), x0 + product / SCALE);
  }

  lemma TapsAt(fn: Kernel, x: seq<Stereo>, p: nat, step: nat, outs: seq<Stereo>, j: nat)
    requires AreTaps(fn, x, p, step, outs) && j < |outs|
    ensures Covered(x, Pos(p, step, j)) && outs[j] == Tap(fn, x, Pos(p, step, j))
  {
  }

  ghost predicate AllS16(x: seq<Stereo>) {
    forall k :: 0 <= k < |x| ==> IsS16(x[k].left) && IsS16(x[k].right)
  }

  /** The exact interpolation at absolute position `p`: between the sample there and the next. */
  function LinearAt(x: seq<Stereo>, p: nat): Stereo
    requires Covered(x, p)
  {
    var i, fraction := p / SCALE, p % SCALE;
    Stereo(Between(fraction, x[i].left, x[i + 1].left), Between(fraction, x[i].right, x[i + 1].right))
  }

  predicate LiesBetween(v: int, a: int, b: int) {
    a <= v <= b || b <= v <= a
  }

  /** `out` is the exact interpolation at position `p`, and lies between the two samples there. */
  ghost predicate IsLinearAt(x: seq<Stereo>, p: nat, out: Stereo) {
    && Covered(x, p) && out == LinearAt(x, p)
    && LiesBetween(out.left, x[p / SCALE].left, x[p / SCALE + 1].left)
    && LiesBetween(out.right, x[p / SCALE].right, x[p / SCALE + 1].right)
  }

  /** Every sample of every run is the saturated weighted mean of two neighbours, and lies between them. */
  lemma {:induction false} LinearRun(r: Resampler, step: nat, feeds: seq<Feed>, j: nat)
    requires r.fposition < TWO64 && CallsFit(Linear, r, step, feeds)
    requires AllS16(r.Stream() + Samples(feeds))
    requires j < |Run(Linear, r, step, feeds).1|
    ensures IsLinearAt(r.Stream() + Samples(feeds), Pos(r.fposition, step, j), Run(Linear, r, step, feeds).1[j])
  {
    hide Run, AreTaps, CallsFit, Samples, IsLinearAt, Tap, Covered, AllS16, Pos, Resampler.Stream;
    RunIsTaps(Linear, r, step, feeds);
    var x := r.Stream() + Samples(feeds);
    TapsAt(Linear, x, r.fposition, step, Run(Linear, r, step, feeds).1, j);
    LinearTap(x, Pos(r.fposition, step, j));
  }

  lemma LinearTap(x: seq<Stereo>, p: nat)
    requires AllS16(x) && Covered(x, p)
    ensures IsLinearAt(x, p, Tap(Linear, x, p))
  {
    hide LinearChannel, Between;
    var i := p / SCALE;
    LinearIsBetween(p % SCALE, x[i].left, x[i + 1].left);
    LinearIsBetween(p % SCALE, x[i].right, x[i + 1].right);
  }

  /** Over any run the zero-order hold gives, for output j, the sample at the whole part of its position. */
  lemma {:induction false} HoldRun(r: Resampler, step: nat, feeds: seq<Feed>, j: nat)
    requires r.fposition < TWO64 && CallsFit(Hold, r, step, feeds) && j < |Run(Hold, r, step, feeds).1|
    ensures var x := r.Stream() + Samples(feeds);
      var i := Pos(r.fposition, step, j) / SCALE;
      i + 2 < |x| && Run(Hold, r, step, feeds).1[j] == x[i]
  {
    hide Run, AreTaps, CallsFit, Samples, Resampler.Stream;
    RunIsTaps(Hold, r, step, feeds);
    TapsAt(Hold, r.Stream() + Samples(feeds), r.fposition, step, Run(Hold, r, step, feeds).1, j);
  }

  /** A call stops for lack of room, or exactly where the two samples behind a position are not all there. */
  lemma CallMakesAll(fn: Kernel, r: Resampler, step: nat, room: nat)
    requires r.fposition < TWO64 && Fits(r.Stream(), step)
    ensures var outs := Call(fn, r, step, room).1;
      && |outs| <= room
      && (forall j: nat :: j < |outs| ==> Pos(r.fposition, step, j) / SCALE + 2 < |r.Stream()|)
      && (r.input != [] && |outs| < room ==> Pos(r.fposition, step, |outs|) / SCALE + 2 >= |r.Stream()|)
  {
    hide Walk, Wrap64;
    if r.input != [] {
      WalkTaps(fn, r.Stream(), r.fposition, step, room, 0);
      var outs := Call(fn, r, step, room).1;
      forall j: nat | j < |outs| ensures Pos(r.fposition, step, j) / SCALE + 2 < |r.Stream()| {
        TapsAt(fn, r.Stream(), r.fposition, step, outs, j);
      }
    }
  }

  /** Unless the samples differ by more than s16 can hold, linear interpolation is the weighted mean, rounded down. */
  lemma LinearIsMean(fraction: nat, x0: int, x1: int)
    requires fraction < SCALE && -32768 <= x0 <= 32767 && -32768 <= x1 <= 32767 && -32768 <= x1 - x0 <= 32767
    ensures LinearChannel(fraction, x0, x1) == ((SCALE - fraction) * x0 + fraction * x1) / SCALE
  {
    hide LinearChannel;
    LinearIsBetween(fraction, x0, x1);
    assert (SCALE - fraction) * x0 + fraction * x1 == x0 * SCALE + fraction * (x1 - x0);
    QuotientShift(fraction * (x1 - x0), x0);
  }

  lemma QuotientShift(v: int, n: int)
    ensures (n * SCALE + v) / SCALE == n + v / SCALE
  {
  }

  method None(state: State, input: StereoBuffer, step: nat, output: array<Stereo>, outputi: nat) returns (next: nat)
    requires state.fposition < TWO64 && step < TWO64
    modifies state, input, output
    ensures var (q, outs) := Call(Hold, old(View(state, input)), step, Room(output, outputi));
      && View(state, input) == q && next == outputi + |outs|
      && (outs != [] ==> next <= output.Length && output[outputi..next] == outs)
  {
    next := StepOverSamples(state, input, step, output, outputi, Hold);
  }

  method LinearResample(state: State, input: StereoBuffer, step: nat, output: array<Stereo>, outputi: nat)
    returns (next: nat)
    requires state.fposition < TWO64 && step < TWO64
    modifies state, input, output
    ensures var (q, outs) := Call(Linear, old(View(state, input)), step, Room(output, outputi));
      && View(state, input) == q && next == outputi + |outs|
      && (outs != [] ==> next <= output.Length && output[outputi..next] == outs)
  {
    next := StepOverSamples(state, input, step, output, outputi, Linear);
  }
}
