/**
 The whole life of one thread's log in externals/microprofile/microprofile.h.  The thread puts entries into the ring,
 flips come in between, and every flip replays the entries of the frame that ended FRAME_DELAY flips ago, so scopes
 span frames and the ring wraps around while some of its entries are still needed.
 */
module ProfileRing {
  import opened Profile
  import opened ProfileScopes
  import opened ProfileSpec

  const FRAME_HISTORY := 512
  const FRAME_DELAY := 3

  // ----- what has happened -----

  datatype Action = Put(event: Event) | Flip

  /** The events that found room in the ring, and how many there were at each flip. */
  datatype Progress = Progress(events: seq<Event>, starts: seq<nat>) {
    /** How many there were at the last flip but j. */
    function Start(j: nat): nat {
      if j < |starts| then starts[|starts| - 1 - j] else 0
    }

    function Replayed(): nat {
      Start(FRAME_DELAY)
    }
  }

  /** The ring has no room: a put is dropped. */
  predicate IsFull(p: Progress, size: nat) {
    |p.events| + 1 == p.Start(0) + size
  }

  function Did(p: Progress, size: nat, action: Action): Progress {
    match action
    case Put(event) => if IsFull(p, size) then p else p.(events := p.events + [event])
    case Flip => p.(starts := p.starts + [|p.events|])
  }

  function After(size: nat, actions: seq<Action>): Progress {
    if actions == [] then Progress([], [])
    else Did(After(size, actions[..|actions| - 1]), size, actions[|actions| - 1])
  }

  /** The ring indices of the ENTER entries that `events` leave open. */
  function OpenSlots(events: seq<Event>, size: nat): seq<nat>
    requires size > 0
  {
    if events == [] then [] else
      var n := |events| - 1;
      SlotStep(OpenSlots(events[..n], size), Kind(Packed(events[n])), n % size)
  }

  /** The next put overwrites nothing that is needed: no entry still to be replayed, no ENTER of an open scope. */
  ghost predicate Spares(p: Progress, size: nat)
    requires size > 0
  {
    && |p.events| < p.Replayed() + size
    && (p.Replayed() <= |p.events| ==> |p.events| % size !in OpenSlots(p.events[..p.Replayed()], size))
  }

  // ----- ring indices -----

  lemma SlotsDiffer(i: nat, j: nat, size: nat)
    requires i < j < i + size
    ensures i % size != j % size
  {
    if i % size == j % size {
      var d := j / size - i / size;
      assert j - i == d * size;
      if d <= 0 { MultipleBelow(d, size); } else { MultipleAbove(d, size); }
    }
  }

  lemma MultipleBelow(d: int, size: nat)
    requires d <= 0
    ensures d * size <= 0
  {
  }

  lemma MultipleAbove(d: int, size: nat)
    requires d >= 1
    ensures d * size >= size
  {
  }

  /** Going on by less than a whole round. */
  lemma SlotAt(a: nat, k: nat, size: nat)
    requires 0 < size && k <= size
    ensures (a + k) % size == if a % size + k < size then a % size + k else a % size + k - size
  {
    var q, r := a / size, a % size;
    assert a + k == q * size + (r + k);
    if r + k < size {
      RemainderIs(q, r + k, size);
    } else {
      assert a + k == (q + 1) * size + (r + k - size);
      RemainderIs(q + 1, r + k - size, size);
    }
  }

  lemma RemainderIs(q: nat, r: nat, size: nat)
    requires r < size
    ensures (q * size + r) % size == r
  {
    var v := q * size + r;
    var d := v / size - q;
    assert v == (v / size) * size + v % size;
    assert v % size - r == -(d * size);
    if d >= 1 { MultipleAbove(d, size); } else if d <= -1 { MultipleAbove(-d, size); }
  }

  // ----- positions -----

  function Before(starts: seq<nat>, i: nat): nat
    requires i <= |starts|
  {
    if i == 0 then 0 else starts[i - 1]
  }

  /** No frame is longer than the ring. */
  ghost predicate Steady(p: Progress, size: nat) {
    && (forall i :: 0 <= i < |p.starts| ==> Before(p.starts, i) <= p.starts[i] < Before(p.starts, i) + size)
    && p.Start(0) <= |p.events| < p.Start(0) + size
  }

  lemma SteadyStart(p: Progress, size: nat, j: nat)
    requires Steady(p, size) && size > 0
    ensures p.Start(j + 1) <= p.Start(j) < p.Start(j + 1) + size
  {
    if j < |p.starts| {
      var i := |p.starts| - 1 - j;
      assert p.starts[i] == p.Start(j) && Before(p.starts, i) == p.Start(j + 1);
    }
  }

  lemma SteadyReplayed(p: Progress, size: nat)
    requires Steady(p, size) && size > 0
    ensures p.Start(FRAME_DELAY + 1) <= p.Start(FRAME_DELAY) < p.Start(FRAME_DELAY + 1) + size
    ensures p.Start(FRAME_DELAY) <= |p.events|
  {
    SteadyStart(p, size, 0);
    SteadyStart(p, size, 1);
    SteadyStart(p, size, 2);
    SteadyStart(p, size, 3);
  }

  lemma SteadyDid(p: Progress, size: nat, action: Action)
    requires Steady(p, size) && size > 0
    ensures Steady(Did(p, size, action), size)
  {
    var q := Did(p, size, action);
    if action.Flip? {
      forall i | 0 <= i < |q.starts| ensures Before(q.starts, i) <= q.starts[i] < Before(q.starts, i) + size {
        if i < |p.starts| { assert q.starts[i] == p.starts[i] && Before(q.starts, i) == Before(p.starts, i); }
      }
    }
  }

  /** The code's test for a full ring is right. */
  lemma FullExactly(p: Progress, size: nat)
    requires Steady(p, size) && size > 1
    ensures (|p.events| % size + 1) % size == p.Start(0) % size <==> IsFull(p, size)
    ensures (|p.events| % size + 1) % size == (|p.events| + 1) % size
  {
    var n := |p.events|;
    SlotAt(n, 1, size);
    NextIndex(n % size, size);
    if IsFull(p, size) {
      SlotAt(p.Start(0), size, size);
    } else {
      SlotsDiffer(p.Start(0), n + 1, size);
    }
  }

  // ----- what is in the ring -----

  /** The events from number `from` on are in the ring. */
  ghost predicate RingHolds(log: seq<Entry>, events: seq<Event>, from: nat)
    requires log != []
  {
    forall i {:trigger events[i]} :: from <= i < |events| ==> log[i % |log|] == Packed(events[i])
  }

  lemma RingPut(log: seq<Entry>, events: seq<Event>, from: nat, event: Event)
    requires log != [] && RingHolds(log, events, from) && |events| < from + |log|
    ensures RingHolds(log[|events| % |log| := Packed(event)], events + [event], from)
  {
    hide Packed;
    var n := |events|;
    var log' := log[n % |log| := Packed(event)];
    forall i | from <= i < n + 1 ensures log'[i % |log|] == Packed((events + [event])[i]) {
      if i < n {
        SlotsDiffer(i, n, |log|);
        assert (events + [event])[i] == events[i];
      }
    }
  }

  lemma BetweenAt(log: seq<Entry>, get: nat, put: nat, n: nat)
    requires get < |log| && put < |log| && n < |log| && put == if get + n < |log| then get + n else get + n - |log|
    ensures |Between(log, get, put)| == n
    ensures forall k :: 0 <= k < n ==>
      Between(log, get, put)[k] == log[if get + k < |log| then get + k else get + k - |log|]
  {
  }

  /** The ring range between two positions holds the events between them. */
  lemma RangeIs(log: seq<Entry>, events: seq<Event>, a: nat, b: nat)
    requires log != [] && RingHolds(log, events, a) && a <= b <= |events| && b - a < |log|
    ensures Between(log, a % |log|, b % |log|) == Log(events[a..b])
  {
    hide Packed, Between;
    var size := |log|;
    SlotAt(a, b - a, size);
    BetweenAt(log, a % size, b % size, b - a);
    forall k | 0 <= k < b - a
      ensures Between(log, a % size, b % size)[k] == Log(events[a..b])[k]
    {
      SlotAt(a, k, size);
      assert events[a..b][k] == events[a + k];
    }
  }

  lemma {:induction false} OpenSlotsMore(events: seq<Event>, size: nat, k: nat)
    requires size > 0 && k < |events|
    ensures OpenSlots(events[..k + 1], size)
         == SlotStep(OpenSlots(events[..k], size), Kind(Packed(events[k])), k % size)
  {
    assert events[..k + 1][..k] == events[..k];
  }

  /** Replaying a stretch of the ring that does not wrap around. */
  lemma {:induction false} SlotRunIs(log: seq<Entry>, events: seq<Event>, a: nat, b: nat)
    requires log != [] && RingHolds(log, events, a) && a <= b <= |events| && a % |log| + (b - a) <= |log|
    ensures SlotRun(OpenSlots(events[..a], |log|), log, a % |log|, a % |log| + (b - a)) == OpenSlots(events[..b], |log|)
    decreases b
  {
    hide OpenSlots, Packed, SlotStep;
    var size := |log|;
    if a < b {
      SlotRunIs(log, events, a, b - 1);
      SlotAt(a, b - 1 - a, size);
      OpenSlotsMore(events, size, b - 1);
    }
  }

  lemma RingHoldsLater(log: seq<Entry>, events: seq<Event>, a: nat, b: nat)
    requires log != [] && RingHolds(log, events, a) && a <= b
    ensures RingHolds(log, events, b)
  {
  }

  /** Replaying any stretch shorter than the ring. */
  lemma {:induction false} SlotsBetweenIs(log: seq<Entry>, events: seq<Event>, a: nat, b: nat)
    requires log != [] && RingHolds(log, events, a) && a <= b <= |events| && b - a < |log|
    ensures SlotsBetween(OpenSlots(events[..a], |log|), log, a % |log|, b % |log|) == OpenSlots(events[..b], |log|)
  {
    hide OpenSlots, RingHolds, SlotRun;
    var size := |log|;
    var rest := size - a % size;
    SlotAt(a, b - a, size);
    if b - a < rest {
      SlotRunIs(log, events, a, b);
    } else {
      var c := a + rest;
      SlotAt(a, rest, size);
      SlotRunIs(log, events, a, c);
      RingHoldsLater(log, events, a, c);
      SlotRunIs(log, events, c, b);
      NoSlotRun(OpenSlots(events[..c], size), log, 0);
    }
  }

  // ----- what every step keeps -----

  function Blank(groups: seq<nat>): Replay {
    Replay([], [0], seq(GROUPS, _ => 0), seq(GROUPS, _ => 0),
           seq(|groups|, _ => 0), seq(|groups|, _ => 0), seq(|groups|, _ => 0))
  }

  ghost predicate AreGroups(groups: seq<nat>) {
    forall i :: 0 <= i < |groups| ==> groups[i] < GROUPS
  }

  function NothingBefore(now: int): Trace {
    Trace([], [], now)
  }

  /** The replay of everything up to the frames that have been replayed. */
  ghost function Whole(groups: seq<nat>, events: seq<Event>): Replay
    requires AreGroups(groups) && Known(groups, Log(events))
  {
    Run(Blank(groups), groups, Log(events))
  }

  lemma {:induction false} NestedKnown(groups: seq<nat>, now: int, events: seq<Event>)
    requires AreGroups(groups) && WellNested(groups, NothingBefore(now), events)
    ensures Starts(groups, Blank(groups), NothingBefore(now)) && Known(groups, Log(events))
    ensures WellFormed(Whole(groups, events), groups) && Shallow(groups, Blank(groups), Log(events))
  {
    hide Run, Shallow, Packed;
    RunMatches(groups, Blank(groups), NothingBefore(now), events);
    NestedIsShallow(groups, Blank(groups), NothingBefore(now), events);
  }

  /**
   The log `log`, the open scopes `slots` and `scopes` and the group times `ticks` are what a replay of the whole
   history up to p.Replayed() would have left, and what is still to be replayed is in the ring.
   */
  ghost predicate Kept(groups: seq<nat>, now: int, p: Progress, log: seq<Entry>, slots: seq<nat>, scopes: Replay,
                       ticks: seq<int>) {
    && |log| > 1 && AreGroups(groups) && Steady(p, |log|) && WellNested(groups, NothingBefore(now), p.events)
    && p.Replayed() <= |p.events| <= p.Replayed() + |log| && RingHolds(log, p.events, p.Replayed())
    && var done := p.events[..p.Replayed()];
       && slots == OpenSlots(done, |log|)
       && WellNested(groups, NothingBefore(now), done) && Known(groups, Log(done))
       && WellFormed(scopes, groups) && SameScopes(scopes, Whole(groups, done))
       && ticks == Whole(groups, done).groupTicks
  }

  lemma StartsKept(groups: seq<nat>, now: int, log: seq<Entry>)
    requires AreGroups(groups) && |log| > 1
    ensures Kept(groups, now, Progress([], []), log, [], Blank(groups), seq(GROUPS, _ => 0))
  {
  }

  lemma {:induction false} NestedMore(groups: seq<nat>, t: Trace, events: seq<Event>, event: Event)
    requires WellNested(groups, t, events) && IsNext(groups, Trail(t, events), event)
    ensures WellNested(groups, t, events + [event])
  {
    assert (events + [event])[..|events|] == events;
  }

  lemma PutKept(groups: seq<nat>, now: int, p: Progress, log: seq<Entry>, slots: seq<nat>, scopes: Replay,
                ticks: seq<int>, event: Event)
    requires Kept(groups, now, p, log, slots, scopes, ticks) && !IsFull(p, |log|) && Spares(p, |log|)
    requires IsNext(groups, Trail(NothingBefore(now), p.events), event)
    ensures Kept(groups, now, Did(p, |log|, Put(event)), log[|p.events| % |log| := Packed(event)], slots, scopes, ticks)
  {
    hide Whole, Packed, RingHolds, OpenSlots, Steady, IsNext, WellNested;
    SteadyDid(p, |log|, Put(event));
    NestedMore(groups, NothingBefore(now), p.events, event);
    RingPut(log, p.events, p.Replayed(), event);
    assert (p.events + [event])[..p.Replayed()] == p.events[..p.Replayed()];
  }

  lemma ShallowSame(groups: seq<nat>, r: Replay, q: Replay, entries: seq<Entry>)
    requires Shallow(groups, r, entries) && WellFormed(q, groups) && SameScopes(q, r)
    ensures Shallow(groups, q, entries)
  {
    hide Run, Known, SameScopes;
    forall k | 0 <= k <= |entries|
      ensures Known(groups, entries[..k]) && |Run(q, groups, entries[..k]).stack| < STACK_MAX
    {
      ShallowUpTo(groups, r, entries, k);
      SameRun(r, q, groups, entries[..k]);
      SameDepth(Run(q, groups, entries[..k]), Run(r, groups, entries[..k]));
    }
  }

  lemma SameDepth(q: Replay, r: Replay)
    requires SameScopes(q, r)
    ensures |q.stack| == |r.stack|
  {
  }

  lemma LogSplit(events: seq<Event>, a: nat, b: nat)
    requires a <= b <= |events|
    ensures Log(events[..b]) == Log(events[..a]) + Log(events[a..b])
  {
    hide Packed;
    assert events[..b] == events[..a] + events[a..b];
  }

  /** Going on from `a` to `b`, from any replay with the same open scopes, adds what the whole replay adds. */
  lemma {:induction false} ReplayOn(groups: seq<nat>, now: int, events: seq<Event>, a: nat, b: nat, scopes: Replay)
    requires AreGroups(groups) && WellNested(groups, NothingBefore(now), events) && a <= b <= |events|
    requires Known(groups, Log(events[..a]))
    requires WellFormed(scopes, groups) && SameScopes(scopes, Whole(groups, events[..a]))
    ensures WellNested(groups, NothingBefore(now), events[..b]) && Known(groups, Log(events[..b]))
    ensures Shallow(groups, scopes, Log(events[a..b])) && Known(groups, Log(events[a..b]))
    ensures var next := Run(scopes, groups, Log(events[a..b]));
      && SameScopes(next, Whole(groups, events[..b]))
      && forall g :: 0 <= g < GROUPS ==>
           Whole(groups, events[..b]).groupTicks[g] - Whole(groups, events[..a]).groupTicks[g]
           == next.groupTicks[g] - scopes.groupTicks[g]
  {
    hide Run, Shallow, Packed, SameScopes, WellNested;
    PrefixNested(groups, NothingBefore(now), events, a);
    PrefixNested(groups, NothingBefore(now), events, b);
    NestedKnown(groups, now, events[..a]);
    NestedKnown(groups, now, events[..b]);
    LogSplit(events, a, b);
    var (before, entries) := (Log(events[..a]), Log(events[a..b]));
    ShallowSplit(groups, Blank(groups), before, entries);
    RunConcat(Blank(groups), groups, before, entries);
    ShallowSame(groups, Whole(groups, events[..a]), scopes, entries);
    SameRun(Whole(groups, events[..a]), scopes, groups, entries);
  }

  lemma FlipStarts(p: Progress, size: nat, j: nat)
    ensures Did(p, size, Flip).Start(j + 1) == p.Start(j) && Did(p, size, Flip).Start(0) == |p.events|
  {
  }

  /** The stretch that a flip replays, and that replaying it is possible. */
  lemma FlipCanReplay(groups: seq<nat>, now: int, p: Progress, log: seq<Entry>, slots: seq<nat>, scopes: Replay,
                      ticks: seq<int>)
    requires Kept(groups, now, p, log, slots, scopes, ticks)
    ensures var (a, b) := (p.Replayed(), Did(p, |log|, Flip).Replayed());
      && a <= b <= |p.events| && b < a + |log|
      && Between(log, a % |log|, b % |log|) == Log(p.events[a..b])
      && Shallow(groups, scopes, Log(p.events[a..b])) && Known(groups, Log(p.events[a..b]))
  {
    hide Whole, Packed, RingHolds, OpenSlots, Steady, WellNested, Between, Shallow, Known, SameScopes, Log;
    var size := |log|;
    var q := Did(p, size, Flip);
    SteadyDid(p, size, Flip);
    SteadyReplayed(q, size);
    FlipStarts(p, size, FRAME_DELAY);
    RangeIs(log, p.events, p.Replayed(), q.Replayed());
    ReplayOn(groups, now, p.events, p.Replayed(), q.Replayed(), scopes);
  }

  lemma {:induction false} FlipKept(groups: seq<nat>, now: int, p: Progress, log: seq<Entry>, slots: seq<nat>,
                                    scopes: Replay, ticks: seq<int>, more: seq<int>)
    requires Kept(groups, now, p, log, slots, scopes, ticks)
    requires var (a, b) := (p.Replayed(), Did(p, |log|, Flip).Replayed());
      && a <= b <= |p.events| && b < a + |log| && Known(groups, Log(p.events[a..b]))
      && |more| == |ticks| && forall g :: 0 <= g < GROUPS ==>
           more[g] == ticks[g] + Run(scopes, groups, Log(p.events[a..b])).groupTicks[g] - scopes.groupTicks[g]
    ensures var (a, b) := (p.Replayed(), Did(p, |log|, Flip).Replayed());
      Kept(groups, now, Did(p, |log|, Flip), log, SlotsBetween(slots, log, a % |log|, b % |log|),
           Run(scopes, groups, Log(p.events[a..b])), more)
  {
    hide Whole, Packed, RingHolds, OpenSlots, Steady, WellNested, Shallow, Known, SameScopes, Log, Run, SlotsBetween;
    var size := |log|;
    var q := Did(p, size, Flip);
    var (a, b) := (p.Replayed(), q.Replayed());
    SteadyDid(p, size, Flip);
    ReplayOn(groups, now, p.events, a, b, scopes);
    SlotsBetweenIs(log, p.events, a, b);
    RingHoldsLater(log, p.events, a, b);
    WholeTicks(groups, p.events[..a]);
    WholeTicks(groups, p.events[..b]);
    assert more == Whole(groups, p.events[..b]).groupTicks;
  }

  lemma WholeTicks(groups: seq<nat>, events: seq<Event>)
    requires AreGroups(groups) && Known(groups, Log(events))
    ensures |Whole(groups, events).groupTicks| == GROUPS
  {
  }

  lemma KeptSteady(groups: seq<nat>, now: int, p: Progress, log: seq<Entry>, slots: seq<nat>, scopes: Replay,
                   ticks: seq<int>)
    requires Kept(groups, now, p, log, slots, scopes, ticks)
    ensures |log| > 1 && Steady(p, |log|)
    ensures Spares(p, |log|) ==> |p.events| % |log| !in slots
  {
  }

  /** The totals do not matter to what is kept. */
  lemma KeptCleared(groups: seq<nat>, now: int, p: Progress, log: seq<Entry>, slots: seq<nat>, scopes: Replay,
                    cleared: Replay, ticks: seq<int>)
    requires Kept(groups, now, p, log, slots, scopes, ticks)
    requires WellFormed(scopes, groups) ==> WellFormed(cleared, groups)
    requires SameScopes(cleared, scopes)
    ensures Kept(groups, now, p, log, slots, cleared, ticks) && WellFormed(cleared, groups)
  {
    hide Whole, Packed, RingHolds, OpenSlots, Steady, WellNested, Known, Log;
  }

  /** What is kept says what the group times are. */
  lemma KeptMeans(groups: seq<nat>, now: int, p: Progress, log: seq<Entry>, slots: seq<nat>, scopes: Replay,
                  ticks: seq<int>, g: nat)
    requires Kept(groups, now, p, log, slots, scopes, ticks) && g < GROUPS
    ensures var t := Trail(NothingBefore(now), p.events[..p.Replayed()]);
      Orderly(groups, t) && |ticks| == GROUPS && ticks[g] == Settled(groups, t, g)
  {
    hide Run, Settled, Trail, WellNested, RingHolds, OpenSlots, Steady, SameScopes, Log;
    var done := p.events[..p.Replayed()];
    NestedKnown(groups, now, done);
    GroupTimeIsUnion(groups, Blank(groups), NothingBefore(now), done, g);
    WholeTicks(groups, done);
  }

  // ----- the code -----

  /** Where the frame state of j flips ago is. */
  function FrameIndex(framePut: nat, j: nat): (i: nat)
    requires framePut < FRAME_HISTORY && j <= FRAME_HISTORY
    ensures i < FRAME_HISTORY
  {
    (framePut + FRAME_HISTORY - j) % FRAME_HISTORY
  }

  ghost predicate FramesKept(logStart: seq<nat>, framePut: nat, p: Progress, size: nat)
    requires size > 0
  {
    && |logStart| == FRAME_HISTORY && framePut < FRAME_HISTORY
    && forall j :: 0 <= j <= FRAME_DELAY ==> logStart[FrameIndex(framePut, j)] == p.Start(j) % size
  }

  lemma FramesFlip(logStart: seq<nat>, framePut: nat, p: Progress, size: nat)
    requires size > 0 && FramesKept(logStart, framePut, p, size)
    ensures |logStart| == FRAME_HISTORY && framePut < FRAME_HISTORY
    ensures var next := (framePut + 1) % FRAME_HISTORY;
      var logStart' := logStart[next := |p.events| % size];
      var q := Did(p, size, Flip);
      && FramesKept(logStart', next, q, size)
      && logStart'[FrameIndex(next, FRAME_DELAY + 1)] == p.Replayed() % size
      && logStart'[FrameIndex(next, FRAME_DELAY)] == q.Replayed() % size
      && (FrameIndex(next, FRAME_DELAY + 1) + 1) % FRAME_HISTORY == FrameIndex(next, FRAME_DELAY)
  {
    hide FrameIndex;
    var next := (framePut + 1) % FRAME_HISTORY;
    var start := |p.events| % size;
    var logStart' := logStart[next := start];
    var q := Did(p, size, Flip);
    forall j | 0 <= j <= FRAME_DELAY + 1 ensures logStart'[FrameIndex(next, j)] == q.Start(j) % size {
      NextFrame(framePut, j);
      FlipStarts(p, size, if j > 0 then j - 1 else 0);
    }
    NextFrame(framePut, FRAME_DELAY);
  }

  lemma NextFrame(framePut: nat, j: nat)
    requires framePut < FRAME_HISTORY && j <= FRAME_DELAY + 1
    ensures var next := (framePut + 1) % FRAME_HISTORY;
      && FrameIndex(next, 0) == next
      && (j > 0 ==> FrameIndex(next, j) == FrameIndex(framePut, j - 1) != next)
      && (FrameIndex(next, FRAME_DELAY + 1) + 1) % FRAME_HISTORY == FrameIndex(next, FRAME_DELAY)
  {
  }

  lemma FramesPut(logStart: seq<nat>, framePut: nat, p: Progress, size: nat, event: Event)
    requires size > 0 && FramesKept(logStart, framePut, p, size)
    ensures FramesKept(logStart, framePut, Did(p, size, Put(event)), size)
  {
    assert forall j :: 0 <= j <= FRAME_DELAY ==> Did(p, size, Put(event)).Start(j) == p.Start(j);
  }

  lemma Repack(e: Entry)
    ensures MakeEntry(Kind(e), Timer(e), Tick(e)) == e
  {
  }

  class Recorder {
    const groups: seq<nat>
    const log: ThreadLog
    const totals: Totals
    var logStart: seq<nat>        // this log's start position in each frame state
    var framePut: nat
    ghost const now: int
    ghost var p: Progress

    ghost predicate Valid()
      reads this, log, log.log, totals
    {
      && log.Valid() && log.nPut == |p.events| % log.log.Length && log.nGet == p.Start(0) % log.log.Length
      && FramesKept(logStart, framePut, p, log.log.Length)
      && KeptSoFar(p)
    }

    constructor (size: nat, groups: seq<nat>, ghost now: int)
      requires size > 1 && AreGroups(groups)
      ensures Valid() && fresh(log) && fresh(log.log) && fresh(totals)
      ensures log.log.Length == size && this.groups == groups && this.now == now && p == Progress([], [])
    {
      var created := new Totals(|groups|);
      var empty := new ThreadLog(size);
      this.groups, log, totals := groups, empty, created;
      logStart, framePut := seq(FRAME_HISTORY, _ => 0), 0;
      this.now, p := now, Progress([], []);
      new;
      StartsKept(groups, now, log.log[..]);
      assert log.Opened() == [] && log.childTickStack[..1] == [0];
      assert log.View(totals, Zeros(GROUPS)) == Blank(groups);
    }

    /** What the pool of logs and the totals say about the history p. */
    ghost predicate KeptSoFar(p: Progress)
      reads this, log, log.log, totals
    {
      && log.Valid() && |totals.frameGroup| == GROUPS
      && |totals.ticks| == |totals.exclusive| == |totals.counts| == |groups|
      && Kept(groups, now, p, log.log[..], log.Slots(), log.View(totals, Zeros(GROUPS)), log.groupTicks)
    }

    /** The thread enters or leaves a scope. */
    method LogEvent(event: Event)
      requires Valid()
      requires !IsFull(p, log.log.Length) ==>
        Spares(p, log.log.Length) && IsNext(groups, Trail(NothingBefore(now), p.events), event)
      modifies `p, log, log.log
      ensures Valid() && p == Did(old(p), log.log.Length, Put(event))
    {
      hide Kept, Steady, Spares, IsNext, Trail, FramesKept, Packed, IsFull;
      ghost var size := log.log.Length;
      ghost var slots, scopes := log.Slots(), log.View(totals, Zeros(GROUPS));
      KeptSteady(groups, now, p, log.log[..], slots, scopes, log.groupTicks);
      FullExactly(p, size);
      FramesPut(logStart, framePut, p, size, event);
      if !IsFull(p, size) {
        PutKept(groups, now, p, log.log[..], slots, scopes, log.groupTicks, event);
      }
      PutPacked(event);
      p := Did(p, size, Put(event));
      assert log.View(totals, Zeros(GROUPS)) == scopes;
    }

    method PutPacked(event: Event)
      requires log.Valid()
      modifies log, log.log
      ensures log.Valid() && log.nGet == old(log.nGet) && log.Slots() == old(log.Slots())
      ensures log.childTickStack[..log.stackPos + 1] == old(log.childTickStack[..log.stackPos + 1])
      ensures log.groupStackPos == old(log.groupStackPos) && log.groupTicks == old(log.groupTicks)
      ensures var next := (old(log.nPut) + 1) % log.log.Length;
        if next == old(log.nGet) then
          log.nPut == old(log.nPut) && log.log[..] == old(log.log[..]) && log.Opened() == old(log.Opened())
        else
          && log.nPut == next && log.log[..] == old(log.log[..])[old(log.nPut) := Packed(event)]
          && (old(log.nPut) !in old(log.Slots()) ==> log.Opened() == old(log.Opened()))
    {
      hide MakeEntry, Kind, Timer, Tick, Between;
      match event {
        case Enter(timer, tick) => log.LogPut(timer, tick, ENTER);
        case Leave(timer, tick) => log.LogPut(timer, tick, LEAVE);
        case Mark(entry) =>
          Repack(entry);
          log.LogPut(Timer(entry), Tick(entry), Kind(entry));
      }
    }

    /** A flip: notes the put position, and replays the frame that is now due. */
    method FlipFrame()
      requires Valid()
      modifies this, log, totals
      ensures Valid() && p == Did(old(p), log.log.Length, Flip)
    {
      hide Kept, FramesKept;
      var get, put := NoteStart();
      totals.Clear(|groups|);
      KeptCleared(groups, now, p, log.log[..], log.Slots(), old(log.View(totals, Zeros(GROUPS))),
                  log.View(totals, Zeros(GROUPS)), log.groupTicks);
      ReplayDue(get, put);
      FlipStarts(p, log.log.Length, 0);
      p := Did(p, log.log.Length, Flip);
    }

    /** Where the frame that is due begins and ends. */
    method NoteStart() returns (get: nat, put: nat)
      requires log.Valid() && log.nPut == |p.events| % log.log.Length
      requires FramesKept(logStart, framePut, p, log.log.Length)
      modifies `framePut, `logStart, log`nGet
      ensures log.nGet == log.nPut && FramesKept(logStart, framePut, Did(p, log.log.Length, Flip), log.log.Length)
      ensures get == p.Replayed() % log.log.Length
      ensures put == Did(p, log.log.Length, Flip).Replayed() % log.log.Length
    {
      hide FramesKept;
      FramesFlip(logStart, framePut, p, log.log.Length);
      framePut := (framePut + 1) % FRAME_HISTORY;
      var frameCurrent := (framePut + FRAME_HISTORY - FRAME_DELAY - 1) % FRAME_HISTORY;
      var frameNext := (frameCurrent + 1) % FRAME_HISTORY;
      logStart := logStart[framePut := log.nPut];
      log.nGet := log.nPut;
      get, put := logStart[frameCurrent], logStart[frameNext];
    }

    method ReplayDue(get: nat, put: nat)
      requires KeptSoFar(p) && WellFormed(log.View(totals, Zeros(GROUPS)), groups)
      requires get == p.Replayed() % log.log.Length && put == Did(p, log.log.Length, Flip).Replayed() % log.log.Length
      modifies log, totals
      ensures KeptSoFar(Did(p, log.log.Length, Flip)) && log.nPut == old(log.nPut) && log.nGet == old(log.nGet)
    {
      hide Kept, Run, Shallow, Between, SlotsBetween, Step, Known, Log;
      ghost var slots, ticks, scopes := log.Slots(), log.groupTicks, log.View(totals, Zeros(GROUPS));
      FlipCanReplay(groups, now, p, log.log[..], slots, scopes, ticks);
      log.ReplayFrame(get, put, groups, totals);
      FlipKept(groups, now, p, log.log[..], slots, scopes, ticks, log.groupTicks);
      ghost var (a, b) := (p.Replayed(), Did(p, log.log.Length, Flip).Replayed());
      KeptCleared(groups, now, Did(p, log.log.Length, Flip), log.log[..], log.Slots(),
                  Run(scopes, groups, Log(p.events[a..b])), log.View(totals, Zeros(GROUPS)), log.groupTicks);
    }
  }

  // ----- every interleaving of puts and flips -----

  /** Every event that finds room may come next, and its put overwrites nothing that is needed. */
  ghost predicate IsSmooth(size: nat, groups: seq<nat>, now: int, actions: seq<Action>)
    requires size > 0
  {
    forall k {:trigger actions[k]} :: 0 <= k < |actions| && actions[k].Put? ==>
      var p := After(size, actions[..k]);
      !IsFull(p, size) ==> Spares(p, size) && IsNext(groups, Trail(NothingBefore(now), p.events), actions[k].event)
  }

  /**
   For every interleaving of puts and flips in which the events that find room are well nested and nothing needed is
   overwritten: the time charged to a group is the length of the union of its scopes in all the frames replayed so far.
   Scopes may span any number of flips, and the ring may wrap around any number of times.
   */
  method Record(size: nat, groups: seq<nat>, ghost now: int, actions: seq<Action>) returns (ticks: seq<int>)
    requires size > 1 && AreGroups(groups) && IsSmooth(size, groups, now, actions)
    ensures |ticks| == GROUPS
    ensures var p := After(size, actions);
      && p.Replayed() <= |p.events|
      && var t := Trail(NothingBefore(now), p.events[..p.Replayed()]);
         Orderly(groups, t) && forall g :: 0 <= g < GROUPS ==> ticks[g] == Settled(groups, t, g)
  {
    hide Settled, Trail, Spares, IsNext, Orderly, After, Kept, FramesKept;
    var recorder := new Recorder(size, groups, now);
    AfterNone(size);
    for k := 0 to |actions|
      invariant fresh(recorder) && fresh(recorder.log) && fresh(recorder.log.log) && fresh(recorder.totals)
      invariant recorder.Valid() && recorder.groups == groups && recorder.now == now
      invariant recorder.log.log.Length == size && recorder.p == After(size, actions[..k])
    {
      AfterMore(size, actions, k);
      match actions[k] {
        case Put(event) => recorder.LogEvent(event);
        case Flip => recorder.FlipFrame();
      }
    }
    assert actions[..|actions|] == actions;
    ticks := recorder.log.groupTicks;
    ghost var log, slots := recorder.log.log[..], recorder.log.Slots();
    ghost var scopes := recorder.log.View(recorder.totals, Zeros(GROUPS));
    KeptReplayed(groups, now, recorder.p, log, slots, scopes, ticks);
    forall g | 0 <= g < GROUPS
      ensures var t := Trail(NothingBefore(now), recorder.p.events[..recorder.p.Replayed()]);
        Orderly(groups, t) && ticks[g] == Settled(groups, t, g)
    {
      KeptMeans(groups, now, recorder.p, log, slots, scopes, ticks, g);
    }
    KeptMeans(groups, now, recorder.p, log, slots, scopes, ticks, 0);
  }

  lemma KeptReplayed(groups: seq<nat>, now: int, p: Progress, log: seq<Entry>, slots: seq<nat>, scopes: Replay,
                     ticks: seq<int>)
    requires Kept(groups, now, p, log, slots, scopes, ticks)
    ensures p.Replayed() <= |p.events|
  {
  }

  lemma {:induction false} AfterNone(size: nat)
    ensures After(size, []) == Progress([], [])
  {
  }

  lemma {:induction false} AfterMore(size: nat, actions: seq<Action>, k: nat)
    requires k < |actions|
    ensures After(size, actions[..k + 1]) == Did(After(size, actions[..k]), size, actions[k])
  {
    assert actions[..k + 1][..k] == actions[..k];
  }
}
