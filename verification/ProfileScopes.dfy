/**
 What the replay's numbers mean for a well-nested log with true, unbounded ticks: a group is charged
 the length of the union of its scopes, and exclusive times are never negative.
 */
module ProfileScopes {
  import opened Profile
  import opened ProfileSpec
  import opened Wrappers

  /** What the profiled thread did. */
  datatype Event =
    | Enter(timer: nat, tick: int)
    | Leave(timer: nat, tick: int)
    | Mark(entry: Entry)              // meta counters and GPU extras

  function Packed(ev: Event): Entry {
    match ev
    case Enter(timer, tick) => MakeEntry(ENTER, timer, tick)
    case Leave(timer, tick) => MakeEntry(LEAVE, timer, tick)
    case Mark(entry) => entry
  }

  function Log(events: seq<Event>): (log: seq<Entry>)
    ensures |log| == |events| && forall i :: 0 <= i < |log| ==> log[i] == Packed(events[i])
  {
    seq(|events|, i requires 0 <= i < |events| => Packed(events[i]))
  }

  datatype Open = Open(timer: nat, start: int)
  datatype Scope = Scope(timer: nat, start: int, end: int, depth: nat)    // depth: how many scopes are around it

  /** The scopes still open, outermost first, the scopes closed, and the time. */
  datatype Trace = Trace(open: seq<Open>, closed: seq<Scope>, now: int)

  function Follow(t: Trace, ev: Event): Trace {
    match ev
    case Enter(timer, tick) => t.(open := t.open + [Open(timer, tick)], now := tick)
    case Leave(timer, tick) =>
      if t.open == [] then t else
        var n := |t.open| - 1;
        Trace(t.open[..n], t.closed + [Scope(t.open[n].timer, t.open[n].start, tick, n)], tick)
    case Mark(_) => t
  }

  /** `ev` may come next: time does not run back, and a scope is left by the timer that entered it. */
  ghost predicate IsNext(groups: seq<nat>, t: Trace, ev: Event) {
    match ev
    case Enter(timer, tick) => timer < |groups| && timer < TIMERS && t.now <= tick && |t.open| < 31
    case Leave(timer, tick) =>
      && t.open != [] && t.now <= tick
      && var top := t.open[|t.open| - 1]; top.timer == timer && tick - top.start < TWO47
    case Mark(entry) => Timer(entry) < |groups| && Kind(entry) >= 2
  }

  function Trail(t: Trace, events: seq<Event>): Trace {
    if events == [] then t else Follow(Trail(t, events[..|events| - 1]), events[|events| - 1])
  }

  ghost predicate WellNested(groups: seq<nat>, t: Trace, events: seq<Event>) {
    events == [] ||
    var n := |events| - 1;
    WellNested(groups, t, events[..n]) && IsNext(groups, Trail(t, events[..n]), events[n])
  }

  // ----- what holds along the way -----

  /** The trace makes sense: open scopes started in order, before now, by known timers. */
  ghost predicate Orderly(groups: seq<nat>, t: Trace) {
    && |t.open| <= 31
    && (forall i :: 0 <= i < |t.open| ==>
          t.open[i].timer < |groups| && t.open[i].timer < TIMERS && t.open[i].start <= t.now)
    && (forall i, j :: 0 <= i < j < |t.open| ==> t.open[i].start <= t.open[j].start)
    && (forall i :: 0 <= i < |t.closed| ==>
          t.closed[i].timer < |groups| && t.closed[i].start <= t.closed[i].end <= t.now)
  }

  lemma FollowOrderly(groups: seq<nat>, t: Trace, ev: Event)
    requires Orderly(groups, t) && IsNext(groups, t, ev)
    ensures Orderly(groups, Follow(t, ev))
  {
  }

  /** How many of the open scopes belong to group g. */
  function OpenIn(groups: seq<nat>, open: seq<Open>, g: nat): (n: nat)
    requires forall i :: 0 <= i < |open| ==> open[i].timer < |groups|
    ensures n <= |open|
  {
    if open == [] then 0 else
      var n := |open| - 1;
      OpenIn(groups, open[..n], g) + if groups[open[n].timer] == g then 1 else 0
  }

  lemma {:induction false} OpenInPush(groups: seq<nat>, open: seq<Open>, o: Open, g: nat)
    requires o.timer < |groups| && forall i :: 0 <= i < |open| ==> open[i].timer < |groups|
    ensures OpenIn(groups, open + [o], g) == OpenIn(groups, open, g) + if groups[o.timer] == g then 1 else 0
  {
    assert (open + [o])[..|open|] == open;
  }

  /** The replay `r` is in step with the trace `t`. */
  ghost predicate Matches(groups: seq<nat>, r: Replay, t: Trace) {
    && WellFormed(r, groups) && Orderly(groups, t)
    && |r.stack| == |t.open|
    && (forall i :: 0 <= i < |r.stack| ==> Tick(r.stack[i]) == t.open[i].start % TWO48)
    && (forall g :: 0 <= g < GROUPS ==> r.groupPos[g] == OpenIn(groups, t.open, g))
  }

  /** What a LEAVE charges is the true duration of the scope it closes. */
  lemma TrueDuration(groups: seq<nat>, r: Replay, t: Trace, ev: Event)
    requires Matches(groups, r, t) && IsNext(groups, t, ev) && ev.Leave?
    ensures var n := |t.open| - 1;
      TickDifference(r.stack[n], Packed(ev)) == ev.tick - t.open[n].start
  {
    var n := |t.open| - 1;
    Unpack(LEAVE, ev.timer, ev.tick);
    assert t.open[n].start <= t.now;
    DifferenceIsExact(r.stack[n], Packed(ev), t.open[n].start, ev.tick);
  }

  lemma PackedFields(groups: seq<nat>, t: Trace, ev: Event)
    requires Orderly(groups, t) && IsNext(groups, t, ev)
    ensures Timer(Packed(ev)) < |groups|
    ensures ev.Enter? ==>
      Kind(Packed(ev)) == ENTER && Timer(Packed(ev)) == ev.timer && Tick(Packed(ev)) == ev.tick % TWO48
    ensures ev.Leave? ==> Kind(Packed(ev)) == LEAVE && Timer(Packed(ev)) == ev.timer
    ensures ev.Mark? ==> Kind(Packed(ev)) >= 2
  {
    if ev.Enter? { Unpack(ENTER, ev.timer, ev.tick); }
    if ev.Leave? { Unpack(LEAVE, ev.timer, ev.tick); }
  }

  lemma StepMatches(groups: seq<nat>, r: Replay, t: Trace, ev: Event)
    requires Matches(groups, r, t) && IsNext(groups, t, ev)
    ensures Timer(Packed(ev)) < |groups| && Matches(groups, Step(r, groups, Packed(ev)), Follow(t, ev))
  {
    hide Timer, Kind, Tick, TickDifference, Packed, OpenIn;
    PackedFields(groups, t, ev);
    FollowOrderly(groups, t, ev);
    var q := Step(r, groups, Packed(ev));
    if ev.Enter? {
      forall g | 0 <= g < GROUPS ensures q.groupPos[g] == OpenIn(groups, t.open + [Open(ev.timer, ev.tick)], g) {
        OpenInPush(groups, t.open, Open(ev.timer, ev.tick), g);
      }
    } else if ev.Leave? {
      var n := |t.open| - 1;
      assert t.open == t.open[..n] + [t.open[n]];
      forall g | 0 <= g < GROUPS ensures q.groupPos[g] == OpenIn(groups, t.open[..n], g) {
        OpenInPush(groups, t.open[..n], t.open[n], g);
      }
    }
  }

  // ----- the union of a group's scopes -----

  /** The ticks from a up to b. */
  function Range(a: int, b: int): (r: set<int>)
    ensures forall x :: x in r <==> a <= x < b
    ensures a <= b ==> |r| == b - a
    decreases b - a
  {
    if a < b then Range(a, b - 1) + {b - 1} else {}
  }

  /** Every tick during which some closed scope of group g ran. */
  function Busy(groups: seq<nat>, closed: seq<Scope>, g: nat): set<int>
    requires forall i :: 0 <= i < |closed| ==> closed[i].timer < |groups|
  {
    if closed == [] then {} else
      var n := |closed| - 1;
      var last := closed[n];
      Busy(groups, closed[..n], g) + if groups[last.timer] == g then Range(last.start, last.end) else {}
  }

  lemma {:induction false} BusyPush(groups: seq<nat>, closed: seq<Scope>, s: Scope, g: nat)
    requires s.timer < |groups| && forall i :: 0 <= i < |closed| ==> closed[i].timer < |groups|
    ensures Busy(groups, closed + [s], g)
         == Busy(groups, closed, g) + if groups[s.timer] == g then Range(s.start, s.end) else {}
  {
    assert (closed + [s])[..|closed|] == closed;
  }

  /** The union is what its name says. */
  lemma {:induction false} BusyIsUnion(groups: seq<nat>, closed: seq<Scope>, g: nat, x: int)
    requires forall i :: 0 <= i < |closed| ==> closed[i].timer < |groups|
    ensures x in Busy(groups, closed, g) <==> exists i :: 0 <= i < |closed| && IsInside(groups, closed[i], g, x)
  {
    hide IsInside;
    if closed != [] {
      var n := |closed| - 1;
      var before := closed[..n];
      BusyIsUnion(groups, before, g, x);
      InsideMeans(groups, closed[n], g, x);
      if i :| 0 <= i < n && IsInside(groups, before[i], g, x) { assert IsInside(groups, closed[i], g, x); }
      if i :| 0 <= i < |closed| && IsInside(groups, closed[i], g, x) { assert i < n ==> before[i] == closed[i]; }
    }
  }

  /** Tick x lies in scope s, which belongs to group g. */
  predicate IsInside(groups: seq<nat>, s: Scope, g: nat, x: int) {
    s.timer < |groups| && groups[s.timer] == g && s.start <= x < s.end
  }

  lemma InsideMeans(groups: seq<nat>, s: Scope, g: nat, x: int)
    requires s.timer < |groups|
    ensures IsInside(groups, s, g, x) <==> x in if groups[s.timer] == g then Range(s.start, s.end) else {}
  {
  }

  lemma {:induction false} BusyBeforeNow(groups: seq<nat>, t: Trace, g: nat)
    requires Orderly(groups, t)
    ensures forall x :: x in Busy(groups, t.closed, g) ==> x < t.now
  {
    forall x | x in Busy(groups, t.closed, g) ensures x < t.now {
      BusyIsUnion(groups, t.closed, g, x);
    }
  }

  /** Where the outermost open scope of group g started, if there is one. */
  function OuterStart(groups: seq<nat>, open: seq<Open>, g: nat): Option<int>
    requires forall i :: 0 <= i < |open| ==> open[i].timer < |groups|
  {
    if open == [] then None else
      var n := |open| - 1;
      var outer := OuterStart(groups, open[..n], g);
      if outer.Some? then outer else if groups[open[n].timer] == g then Some(open[n].start) else None
  }

  lemma {:induction false} OuterStartPush(groups: seq<nat>, open: seq<Open>, o: Open, g: nat)
    requires o.timer < |groups| && forall i :: 0 <= i < |open| ==> open[i].timer < |groups|
    ensures var outer := OuterStart(groups, open, g);
      OuterStart(groups, open + [o], g)
      == if outer.Some? then outer else if groups[o.timer] == g then Some(o.start) else None
  {
    assert (open + [o])[..|open|] == open;
  }

  lemma {:induction false} OuterStartExists(groups: seq<nat>, open: seq<Open>, g: nat, limit: int)
    requires forall i :: 0 <= i < |open| ==> open[i].timer < |groups| && open[i].start <= limit
    ensures OuterStart(groups, open, g).Some? <==> OpenIn(groups, open, g) > 0
    ensures OuterStart(groups, open, g).Some? ==> OuterStart(groups, open, g).value <= limit
  {
    if open != [] { OuterStartExists(groups, open[..|open| - 1], g, limit); }
  }

  function Below(s: set<int>, limit: int): set<int> {
    set x | x in s && x < limit
  }

  /** The busy time of group g that no open scope of the group can add to any more. */
  function Settled(groups: seq<nat>, t: Trace, g: nat): nat
    requires Orderly(groups, t)
  {
    match OuterStart(groups, t.open, g)
    case None => |Busy(groups, t.closed, g)|
    case Some(start) => |Below(Busy(groups, t.closed, g), start)|
  }

  lemma EnterSettles(groups: seq<nat>, t: Trace, ev: Event, g: nat)
    requires Orderly(groups, t) && IsNext(groups, t, ev) && ev.Enter?
    ensures Orderly(groups, Follow(t, ev)) && Settled(groups, Follow(t, ev), g) == Settled(groups, t, g)
  {
    hide Busy, OuterStart;
    FollowOrderly(groups, t, ev);
    OuterStartPush(groups, t.open, Open(ev.timer, ev.tick), g);
    BusyBeforeNow(groups, t, g);
    var busy := Busy(groups, t.closed, g);
    if OuterStart(groups, t.open, g).None? { assert Below(busy, ev.tick) == busy; }
  }

  /** Closing the outermost scope of its group adds all of it; closing an inner one adds nothing. */
  lemma {:induction false} LeaveSettles(groups: seq<nat>, t: Trace, ev: Event, g: nat)
    requires Orderly(groups, t) && IsNext(groups, t, ev) && ev.Leave? && g < GROUPS
    ensures Orderly(groups, Follow(t, ev))
    ensures var top := t.open[|t.open| - 1];
      Settled(groups, Follow(t, ev), g) == Settled(groups, t, g)
        + if groups[top.timer] == g && OpenIn(groups, t.open, g) == 1 then ev.tick - top.start else 0
  {
    hide Busy, OuterStart, OpenIn, Range;
    FollowOrderly(groups, t, ev);
    var n := |t.open| - 1;
    var top, rest := t.open[n], t.open[..n];
    assert t.open == rest + [top];
    OuterStartPush(groups, rest, top, g);
    OpenInPush(groups, rest, top, g);
    OuterStartExists(groups, rest, g, top.start);
    var scope := Scope(top.timer, top.start, ev.tick, n);
    BusyPush(groups, t.closed, scope, g);
    BusyBeforeNow(groups, t, g);
    var busy, range := Busy(groups, t.closed, g), Range(top.start, ev.tick);
    if groups[top.timer] == g {
      if OuterStart(groups, rest, g).Some? {
        var f := OuterStart(groups, rest, g).value;
        assert Below(busy + range, f) == Below(busy, f);
      } else {
        assert busy + range == Below(busy, top.start) + range;
        assert Below(busy, top.start) !! range;
      }
    } else {
      assert busy + {} == busy;
    }
  }

  // ----- the theorem -----

  /** A log that starts with nothing open. */
  ghost predicate Starts(groups: seq<nat>, r: Replay, t: Trace) {
    WellFormed(r, groups) && r.stack == [] && (forall g :: 0 <= g < GROUPS ==> r.groupPos[g] == 0)
    && t.open == [] && t.closed == []
  }

  lemma StartsMatch(groups: seq<nat>, r: Replay, t: Trace)
    requires Starts(groups, r, t)
    ensures Matches(groups, r, t)
  {
  }

  lemma LogMore(events: seq<Event>)
    requires events != []
    ensures var n := |events| - 1; Log(events)[..n] == Log(events[..n]) && Log(events)[n] == Packed(events[n])
  {
  }

  lemma {:induction false} RunMatches(groups: seq<nat>, r: Replay, t: Trace, events: seq<Event>)
    requires Starts(groups, r, t) && WellNested(groups, t, events)
    ensures Known(groups, Log(events)) && Matches(groups, Run(r, groups, Log(events)), Trail(t, events))
  {
    hide Step, Packed, Matches, Log, Starts;
    StartsForm(groups, r, t);
    if events == [] {
      StartsMatch(groups, r, t);
    } else {
      var n := |events| - 1;
      LogMore(events);
      RunMatches(groups, r, t, events[..n]);
      StepMatches(groups, Run(r, groups, Log(events[..n])), Trail(t, events[..n]), events[n]);
      KnownMore(groups, Log(events), n);
    }
  }

  lemma {:induction false} StartsForm(groups: seq<nat>, r: Replay, t: Trace)
    requires Starts(groups, r, t)
    ensures WellFormed(r, groups) && forall log :: |log| == 0 ==> Run(r, groups, log) == r
  {
  }

  lemma KnownMore(groups: seq<nat>, log: seq<Entry>, n: nat)
    requires |log| == n + 1 && Known(groups, log[..n]) && Timer(log[n]) < |groups|
    ensures Known(groups, log)
  {
    hide Timer;
    forall i | 0 <= i < |log| ensures Timer(log[i]) < |groups| {
      if i < n { assert log[i] == log[..n][i]; }
    }
  }

  /** What one step adds to a group's time. */
  lemma StepCharges(groups: seq<nat>, r: Replay, t: Trace, ev: Event, g: nat)
    requires Matches(groups, r, t) && IsNext(groups, t, ev) && g < GROUPS
    ensures Timer(Packed(ev)) < |groups| && Orderly(groups, Follow(t, ev))
    ensures Step(r, groups, Packed(ev)).groupTicks[g] - r.groupTicks[g]
         == Settled(groups, Follow(t, ev), g) - Settled(groups, t, g)
  {
    hide Timer, Kind, Tick, TickDifference, Packed, OpenIn, Settled;
    PackedFields(groups, t, ev);
    if ev.Enter? {
      EnterSettles(groups, t, ev, g);
    } else if ev.Leave? {
      LeaveSettles(groups, t, ev, g);
      TrueDuration(groups, r, t, ev);
    }
  }

  /**
   For every well-nested log whose ticks do not run back: the time charged to a group is the length of the union
   of its scopes, not counting what lies inside a scope that is still open.
   */
  lemma {:induction false} GroupTimeIsUnion(groups: seq<nat>, r: Replay, t: Trace, events: seq<Event>, g: nat)
    requires Starts(groups, r, t) && WellNested(groups, t, events) && g < GROUPS
    ensures Known(groups, Log(events)) && Orderly(groups, Trail(t, events))
    ensures Run(r, groups, Log(events)).groupTicks[g] - r.groupTicks[g] == Settled(groups, Trail(t, events), g)
  {
    hide Step, Packed, Log, Settled;
    RunMatches(groups, r, t, events);
    if events == [] {
      NothingSettled(groups, t, g);
    } else {
      var n := |events| - 1;
      LogMore(events);
      GroupTimeIsUnion(groups, r, t, events[..n], g);
      RunMatches(groups, r, t, events[..n]);
      StepCharges(groups, Run(r, groups, Log(events[..n])), Trail(t, events[..n]), events[n], g);
    }
  }

  lemma NothingSettled(groups: seq<nat>, t: Trace, g: nat)
    requires Orderly(groups, t) && t.open == [] && t.closed == []
    ensures Settled(groups, t, g) == 0
  {
  }

  /** In particular, once none of the group's scopes is open, nested scopes have been counted once. */
  lemma {:induction false} ClosedGroupTime(groups: seq<nat>, r: Replay, t: Trace, events: seq<Event>, g: nat)
    requires Starts(groups, r, t) && WellNested(groups, t, events) && g < GROUPS
    requires forall i :: 0 <= i < |Trail(t, events).open| ==>
               var timer := Trail(t, events).open[i].timer; timer < |groups| ==> groups[timer] != g
    ensures Known(groups, Log(events)) && Orderly(groups, Trail(t, events))
    ensures Run(r, groups, Log(events)).groupTicks[g] - r.groupTicks[g] == |Busy(groups, Trail(t, events).closed, g)|
  {
    hide Run, Log, Busy, Trail;
    GroupTimeIsUnion(groups, r, t, events, g);
    NoneOpen(groups, Trail(t, events).open, g);
  }

  lemma {:induction false} NoneOpen(groups: seq<nat>, open: seq<Open>, g: nat)
    requires forall i :: 0 <= i < |open| ==> open[i].timer < |groups| && groups[open[i].timer] != g
    ensures OuterStart(groups, open, g) == None
  {
    if open != [] { NoneOpen(groups, open[..|open| - 1], g); }
  }

  // ----- exclusive times -----

  /** Finished children of an open scope took no longer than the scope so far, and took some time. */
  ghost predicate ChildrenFit(r: Replay, t: Trace) {
    && |r.child| == |t.open| + 1
    && (forall k :: 0 < k < |r.child| ==> r.child[k] >= 0)
    && (forall k :: 0 < k < |t.open| ==> r.child[k] <= t.open[k].start - t.open[k - 1].start)
    && (t.open != [] ==> r.child[|t.open|] <= t.now - t.open[|t.open| - 1].start)
  }

  lemma StepFitsChildren(groups: seq<nat>, r: Replay, t: Trace, ev: Event)
    requires Matches(groups, r, t) && ChildrenFit(r, t) && IsNext(groups, t, ev)
    ensures Timer(Packed(ev)) < |groups| && ChildrenFit(Step(r, groups, Packed(ev)), Follow(t, ev))
    ensures forall i :: 0 <= i < |groups| ==> Step(r, groups, Packed(ev)).exclusive[i] >= r.exclusive[i]
  {
    hide Timer, Kind, Tick, TickDifference, Packed, OpenIn;
    PackedFields(groups, t, ev);
    if ev.Leave? { TrueDuration(groups, r, t, ev); }
  }

  /** On such a log no scope is ever charged a negative exclusive time. */
  lemma {:induction false} ExclusiveNeverShrinks(groups: seq<nat>, r: Replay, t: Trace, events: seq<Event>)
    requires Starts(groups, r, t) && WellNested(groups, t, events)
    ensures Known(groups, Log(events)) && ChildrenFit(Run(r, groups, Log(events)), Trail(t, events))
    ensures events != [] ==>
      var before := Run(r, groups, Log(events[..|events| - 1]));
      forall i :: 0 <= i < |groups| ==> Run(r, groups, Log(events)).exclusive[i] >= before.exclusive[i]
  {
    hide Step, Packed, Log;
    RunMatches(groups, r, t, events);
    if events != [] {
      var n := |events| - 1;
      LogMore(events);
      ExclusiveNeverShrinks(groups, r, t, events[..n]);
      RunMatches(groups, r, t, events[..n]);
      StepFitsChildren(groups, Run(r, groups, Log(events[..n])), Trail(t, events[..n]), events[n]);
    }
  }

  // ----- the stacks are high enough -----

  lemma {:induction false} PrefixNested(groups: seq<nat>, t: Trace, events: seq<Event>, k: nat)
    requires WellNested(groups, t, events) && k <= |events|
    ensures WellNested(groups, t, events[..k])
    decreases |events|
  {
    if k == |events| {
      assert events[..k] == events;
    } else {
      PrefixNested(groups, t, events[..|events| - 1], k);
      assert events[..|events| - 1][..k] == events[..k];
    }
  }

  /** Such a log can be replayed: at most 31 scopes are open at any time. */
  lemma {:induction false} NestedIsShallow(groups: seq<nat>, r: Replay, t: Trace, events: seq<Event>)
    requires Starts(groups, r, t) && WellNested(groups, t, events)
    ensures Shallow(groups, r, Log(events))
  {
    hide Run, Packed, WellNested;
    forall k | 0 <= k <= |events|
      ensures Known(groups, Log(events)[..k]) && |Run(r, groups, Log(events)[..k]).stack| < STACK_MAX
    {
      PrefixNested(groups, t, events, k);
      RunMatches(groups, r, t, events[..k]);
      assert Log(events)[..k] == Log(events[..k]);
    }
  }
}
