/**
 What replaying a profiler log computes (externals/microprofile/microprofile.h): packed
 entries, and a stack of open scopes that survives from frame to frame.
 */
module ProfileSpec {

  const TWO16 := 0x1_0000
  const TWO47 := 0x8000_0000_0000
  const TWO48 := 0x1_0000_0000_0000
  const TWO62 := 0x4000_0000_0000_0000
  const TWO63 := 0x8000_0000_0000_0000
  const TWO64 := 0x1_0000_0000_0000_0000
  const TIMERS := 0x4000          // values of the 14-bit timer field
  const GROUPS := 48

  const LEAVE := 0
  const ENTER := 1
  const META := 2
  const GPU_EXTRA := 3

  // ----- packed entries -----

  /** A log entry: 2 bits of type, 14 bits of timer, the low 48 bits of the tick. */
  type Entry = e: int | 0 <= e < TWO64

  function MakeEntry(kind: nat, token: nat, tick: int): Entry
    requires kind < 4
  {
    kind * TWO62 + token % TIMERS * TWO48 + tick % TWO48
  }

  function Kind(e: Entry): (k: nat)
    ensures k < 4
  {
    e / TWO62
  }

  function Timer(e: Entry): (t: nat)
    ensures t < TIMERS
  {
    e / TWO48 % TIMERS
  }

  function Tick(e: Entry): (t: nat)
    ensures t < TWO48
  {
    e % TWO48
  }

  lemma Unpack(kind: nat, token: nat, tick: int)
    requires kind < 4
    ensures var e := MakeEntry(kind, token, tick);
      Kind(e) == kind && Timer(e) == token % TIMERS && Tick(e) == tick % TWO48
  {
    var high, low := kind * TIMERS + token % TIMERS, tick % TWO48;
    var e: int := MakeEntry(kind, token, tick);
    assert e == high * TWO48 + low;
    assert e / TWO48 == high && e % TWO48 == low;
    assert high % TIMERS == token % TIMERS;
    assert TWO62 == TIMERS * TWO48;
    assert e == kind * TWO62 + (token % TIMERS * TWO48 + low) && 0 <= token % TIMERS * TWO48 + low < TWO62;
  }

  /** (End << 16) - (Start << 16) in 64 bits, as a signed number shifted back by 16. */
  function TickDifference(start: Entry, end: Entry): int {
    var difference := ((end * TWO16) % TWO64 - (start * TWO16) % TWO64) % TWO64;
    (if difference < TWO63 then difference else difference - TWO64) / TWO16
  }

  lemma ShiftOut(e: int)
    ensures (e * TWO16) % TWO64 == e % TWO48 * TWO16
  {
    var q := e / TWO48;
    assert e == q * TWO48 + e % TWO48;
    assert e * TWO16 == q * TWO64 + e % TWO48 * TWO16;
  }

  /** Differences come out right across the 48-bit wrap-around, as long as they fit 48 signed bits. */
  lemma DifferenceIsExact(start: Entry, end: Entry, a: int, b: int)
    requires Tick(start) == a % TWO48 && Tick(end) == b % TWO48 && -TWO47 <= b - a < TWO47
    ensures TickDifference(start, end) == b - a
  {
    ShiftOut(start);
    ShiftOut(end);
    var (qa, qb) := (a / TWO48, b / TWO48);
    var d := b - a;
    var raw := (end % TWO48 - start % TWO48) * TWO16;
    assert raw == d * TWO16 + (qa - qb) * TWO64;
    assert raw % TWO64 == (d * TWO16) % TWO64;
    if d >= 0 {
      assert (d * TWO16) % TWO64 == d * TWO16;
    } else {
      assert (d * TWO16) % TWO64 == d * TWO16 + TWO64;
    }
  }

  // ----- replay -----

  /**
   The replay of one log: open ENTER entries, per nesting level the time of finished children, per group how
   many of its scopes are open; and what has been charged to groups and timers.
   */
  datatype Replay = Replay(stack: seq<Entry>, child: seq<int>, groupPos: seq<nat>, groupTicks: seq<int>,
                           ticks: seq<int>, exclusive: seq<int>, counts: seq<nat>)

  ghost predicate WellFormed(r: Replay, groups: seq<nat>) {
    && |r.child| == |r.stack| + 1
    && |r.groupPos| == |r.groupTicks| == GROUPS
    && |r.ticks| == |r.exclusive| == |r.counts| == |groups|
    && forall i :: 0 <= i < |groups| ==> groups[i] < GROUPS
  }

  function AddTo(s: seq<int>, i: nat, v: int): (r: seq<int>)
    requires i < |s|
    ensures |r| == |s|
  {
    s[i := s[i] + v]
  }

  /** One entry.  `groups` maps timers to their groups. */
  function Step(r: Replay, groups: seq<nat>, e: Entry): (r': Replay)
    requires WellFormed(r, groups) && Timer(e) < |groups|
    ensures WellFormed(r', groups)
  {
    var group := groups[Timer(e)];
    if Kind(e) == ENTER then
      r.(groupPos := r.groupPos[group := (r.groupPos[group] + 1) % 256], stack := r.stack + [e], child := r.child + [0])
    else if Kind(e) == LEAVE && r.stack != [] then
      var n := |r.stack| - 1;
      var ticks := TickDifference(r.stack[n], e);
      var own := ticks - r.child[n + 1];
      var pos := r.groupPos[group];
      r.(stack := r.stack[..n], child := AddTo(r.child[..n + 1], n, ticks),
         ticks := AddTo(r.ticks, Timer(e), ticks), exclusive := AddTo(r.exclusive, Timer(e), own),
         counts := r.counts[Timer(e) := r.counts[Timer(e)] + 1],
         groupPos := if pos > 0 then r.groupPos[group := pos - 1] else r.groupPos,
         groupTicks := if pos == 1 then AddTo(r.groupTicks, group, ticks) else r.groupTicks)
    else r
  }

  ghost predicate Known(groups: seq<nat>, entries: seq<Entry>) {
    forall i :: 0 <= i < |entries| ==> Timer(entries[i]) < |groups|
  }

  function Run(r: Replay, groups: seq<nat>, entries: seq<Entry>): (r': Replay)
    requires WellFormed(r, groups) && Known(groups, entries)
    ensures WellFormed(r', groups)
  {
    if entries == [] then r
    else
      var n := |entries| - 1;
      Step(Run(r, groups, entries[..n]), groups, entries[n])
  }

  lemma {:induction false} RunMore(r: Replay, groups: seq<nat>, entries: seq<Entry>, e: Entry)
    requires WellFormed(r, groups) && Known(groups, entries + [e])
    ensures Known(groups, entries) && Timer(e) < |groups|
    ensures Run(r, groups, entries + [e]) == Step(Run(r, groups, entries), groups, e)
  {
    assert (entries + [e])[..|entries|] == entries;
    assert (entries + [e])[|entries|] == e;
    assert forall i :: 0 <= i < |entries| ==> entries[i] == (entries + [e])[i];
  }

  /** Replaying in two goes is replaying at once: what a frame leaves behind is all the next one needs. */
  lemma {:induction false} RunConcat(r: Replay, groups: seq<nat>, a: seq<Entry>, b: seq<Entry>)
    requires WellFormed(r, groups) && Known(groups, a) && Known(groups, b)
    ensures Known(groups, a + b) && Run(r, groups, a + b) == Run(Run(r, groups, a), groups, b)
    decreases |b|
  {
    hide Step;
    if b == [] {
      assert a + b == a;
    } else {
      var n := |b| - 1;
      RunConcat(r, groups, a, b[..n]);
      assert a + b == (a + b[..n]) + [b[n]];
      RunMore(r, groups, a + b[..n], b[n]);
    }
  }

  // ----- exclusive time is conserved -----

  function Sum(s: seq<int>): int {
    if s == [] then 0 else Sum(s[..|s| - 1]) + s[|s| - 1]
  }

  lemma {:induction false} SumAdd(s: seq<int>, i: nat, v: int)
    requires i < |s|
    ensures Sum(AddTo(s, i, v)) == Sum(s) + v
  {
    var n := |s| - 1;
    if i < n {
      SumAdd(s[..n], i, v);
      assert AddTo(s, i, v)[..n] == AddTo(s[..n], i, v);
    } else {
      assert AddTo(s, i, v)[..n] == s[..n];
    }
  }

  lemma {:induction false} SumPush(s: seq<int>, v: int)
    ensures Sum(s + [v]) == Sum(s) + v
  {
    assert (s + [v])[..|s|] == s;
  }

  lemma StepConserves(r: Replay, groups: seq<nat>, e: Entry)
    requires WellFormed(r, groups) && Timer(e) < |groups|
    ensures var q := Step(r, groups, e); Sum(q.exclusive) - Sum(r.exclusive) == Sum(q.child) - Sum(r.child)
  {
    hide Sum, TickDifference, Timer, Kind;
    if Kind(e) == ENTER {
      SumPush(r.child, 0);
    } else if Kind(e) == LEAVE && r.stack != [] {
      var n := |r.stack| - 1;
      var ticks := TickDifference(r.stack[n], e);
      SumAdd(r.exclusive, Timer(e), ticks - r.child[n + 1]);
      SumAdd(r.child[..n + 1], n, ticks);
      assert r.child == r.child[..n + 1] + [r.child[n + 1]];
      SumPush(r.child[..n + 1], r.child[n + 1]);
    }
  }

  /** For any log, well nested or not: what is charged as exclusive time is what the stack's child times gain. */
  lemma {:induction false} ExclusiveConserved(r: Replay, groups: seq<nat>, entries: seq<Entry>)
    requires WellFormed(r, groups) && Known(groups, entries)
    ensures var q := Run(r, groups, entries); Sum(q.exclusive) - Sum(r.exclusive) == Sum(q.child) - Sum(r.child)
  {
    hide Step;
    if entries != [] {
      var n := |entries| - 1;
      ExclusiveConserved(r, groups, entries[..n]);
      StepConserves(Run(r, groups, entries[..n]), groups, entries[n]);
    }
  }

  /** The time of the outermost scopes that `entries` close. */
  function Outermost(r: Replay, groups: seq<nat>, entries: seq<Entry>): int
    requires WellFormed(r, groups) && Known(groups, entries)
  {
    if entries == [] then 0 else
      var n := |entries| - 1;
      var q := Run(r, groups, entries[..n]);
      Outermost(r, groups, entries[..n])
      + if Kind(entries[n]) == LEAVE && |q.stack| == 1 then TickDifference(q.stack[0], entries[n]) else 0
  }

  lemma {:induction false} OutermostIsBase(r: Replay, groups: seq<nat>, entries: seq<Entry>)
    requires WellFormed(r, groups) && Known(groups, entries)
    ensures Run(r, groups, entries).child[0] == r.child[0] + Outermost(r, groups, entries)
  {
    hide TickDifference, Timer, Kind;
    if entries != [] { OutermostIsBase(r, groups, entries[..|entries| - 1]); }
  }

  /** From an empty stack to an empty stack, exclusive times add up to the time of the outermost scopes. */
  lemma {:induction false} ExclusiveIsOutermost(r: Replay, groups: seq<nat>, entries: seq<Entry>)
    requires WellFormed(r, groups) && Known(groups, entries) && r.stack == [] && Run(r, groups, entries).stack == []
    ensures Sum(Run(r, groups, entries).exclusive) - Sum(r.exclusive) == Outermost(r, groups, entries)
  {
    hide Run, Outermost, Sum;
    ExclusiveConserved(r, groups, entries);
    OutermostIsBase(r, groups, entries);
    SumOne(r.child);
    SumOne(Run(r, groups, entries).child);
  }

  lemma {:induction false} SumOne(s: seq<int>)
    requires |s| == 1
    ensures Sum(s) == s[0]
  {
    assert s[..0] == [];
  }

  // ----- frame after frame -----

  function Zeros(n: nat): (z: seq<int>)
    ensures |z| == n && forall i :: 0 <= i < n ==> z[i] == 0
  {
    seq(n, _ => 0)
  }

  /** Each frame counts its group ticks from zero; nothing else depends on them. */
  function Fresh(r: Replay): Replay {
    r.(groupTicks := Zeros(GROUPS))
  }

  /** `q` has the same scopes open as `r`, whatever the two have been charged so far. */
  ghost predicate SameScopes(q: Replay, r: Replay) {
    q.stack == r.stack && q.child == r.child && q.groupPos == r.groupPos
  }

  lemma SameStep(r: Replay, q: Replay, groups: seq<nat>, e: Entry)
    requires WellFormed(r, groups) && WellFormed(q, groups) && Timer(e) < |groups| && SameScopes(q, r)
    ensures SameScopes(Step(q, groups, e), Step(r, groups, e))
    ensures forall g :: 0 <= g < GROUPS ==>
      Step(r, groups, e).groupTicks[g] - r.groupTicks[g] == Step(q, groups, e).groupTicks[g] - q.groupTicks[g]
  {
    hide TickDifference, Kind, Timer;
  }

  /** What a replay adds to the group times depends on the open scopes alone. */
  lemma {:induction false} SameRun(r: Replay, q: Replay, groups: seq<nat>, entries: seq<Entry>)
    requires WellFormed(r, groups) && WellFormed(q, groups) && Known(groups, entries) && SameScopes(q, r)
    ensures SameScopes(Run(q, groups, entries), Run(r, groups, entries))
    ensures forall g :: 0 <= g < GROUPS ==>
      Run(r, groups, entries).groupTicks[g] - r.groupTicks[g] == Run(q, groups, entries).groupTicks[g] - q.groupTicks[g]
  {
    hide Step, Timer, SameScopes;
    if entries != [] {
      var n := |entries| - 1;
      SameRun(r, q, groups, entries[..n]);
      SameStep(Run(r, groups, entries[..n]), Run(q, groups, entries[..n]), groups, entries[n]);
    }
  }

  lemma FreshScopes(r: Replay, groups: seq<nat>)
    requires WellFormed(r, groups)
    ensures WellFormed(Fresh(r), groups) && SameScopes(Fresh(r), r) && Fresh(r).groupTicks == Zeros(GROUPS)
  {
  }

  ghost predicate AllKnown(groups: seq<nat>, frames: seq<seq<Entry>>) {
    forall i :: 0 <= i < |frames| ==> Known(groups, frames[i])
  }

  function Joined(frames: seq<seq<Entry>>): seq<Entry> {
    if frames == [] then [] else Joined(frames[..|frames| - 1]) + frames[|frames| - 1]
  }

  lemma {:induction false} JoinedKnown(groups: seq<nat>, frames: seq<seq<Entry>>)
    requires AllKnown(groups, frames)
    ensures Known(groups, Joined(frames))
  {
    if frames != [] { JoinedKnown(groups, frames[..|frames| - 1]); }
  }

  /** Group g's ticks of all frames together. */
  function FrameTicks(r: Replay, groups: seq<nat>, frames: seq<seq<Entry>>, g: nat): int
    requires WellFormed(r, groups) && AllKnown(groups, frames) && g < GROUPS
  {
    if frames == [] then 0 else
      var n := |frames| - 1;
      JoinedKnown(groups, frames[..n]);
      var before := Run(r, groups, Joined(frames[..n]));
      FrameTicks(r, groups, frames[..n], g) + Run(Fresh(before), groups, frames[n]).groupTicks[g]
  }

  /** However a log is cut into frames, the group's ticks of the frames add up to those of the whole log. */
  lemma {:induction false} FramesAddUp(r: Replay, groups: seq<nat>, frames: seq<seq<Entry>>, g: nat)
    requires WellFormed(r, groups) && AllKnown(groups, frames) && g < GROUPS
    ensures Known(groups, Joined(frames))
    ensures Run(r, groups, Joined(frames)).groupTicks[g] == r.groupTicks[g] + FrameTicks(r, groups, frames, g)
  {
    hide Run, Fresh;
    JoinedKnown(groups, frames);
    if frames == [] {
      RunNothing(r, groups);
    } else {
      var n := |frames| - 1;
      FramesAddUp(r, groups, frames[..n], g);
      RunConcat(r, groups, Joined(frames[..n]), frames[n]);
      var before := Run(r, groups, Joined(frames[..n]));
      FreshScopes(before, groups);
      SameRun(before, Fresh(before), groups, frames[n]);
    }
  }

  lemma {:induction false} RunNothing(r: Replay, groups: seq<nat>)
    requires WellFormed(r, groups)
    ensures Run(r, groups, []) == r
  {
  }
}
