/**
 What the replay's numbers for single timers mean (externals/microprofile/microprofile.h): for a well-nested log,
 inclusive times, counts and exclusive times are sums over the timer's closed scopes.
 */
module ProfileTimers {
  import opened ProfileScopes
  import opened ProfileSpec

  function Length(s: Scope): int {
    s.end - s.start
  }

  // ----- the reference: sums over closed scopes -----

  /** The time spent in scopes of timer k. */
  function InclusiveTime(closed: seq<Scope>, k: nat): int {
    if closed == [] then 0 else
      var n := |closed| - 1;
      InclusiveTime(closed[..n], k) + if closed[n].timer == k then Length(closed[n]) else 0
  }

  function ScopeCount(closed: seq<Scope>, k: nat): int {
    if closed == [] then 0 else
      var n := |closed| - 1;
      ScopeCount(closed[..n], k) + if closed[n].timer == k then 1 else 0
  }

  /**
   Scope j is a direct child of scope i: one level deeper, and everything closed between the two was at least as deep,
   so it was i that j was left to.
   */
  ghost predicate IsChild(closed: seq<Scope>, j: nat, i: nat)
    requires j < |closed| && i < |closed|
  {
    j < i && closed[j].depth == closed[i].depth + 1 && forall m :: j < m < i ==> closed[m].depth > closed[i].depth
  }

  /** The time of those of the first n scopes that are direct children of scope i. */
  ghost function ChildTime(closed: seq<Scope>, i: nat, n: nat): int
    requires i < |closed| && n <= |closed|
  {
    if n == 0 then 0 else ChildTime(closed, i, n - 1) + if IsChild(closed, n - 1, i) then Length(closed[n - 1]) else 0
  }

  /** The time spent in scopes of timer k but not in their direct children; `n` counts the scopes looked at. */
  ghost function ExclusiveTime(closed: seq<Scope>, k: nat, n: nat): int
    requires n <= |closed|
  {
    if n == 0 then 0 else
      ExclusiveTime(closed, k, n - 1) +
      if closed[n - 1].timer == k then Length(closed[n - 1]) - ChildTime(closed, n - 1, n - 1) else 0
  }

  // ----- time of finished children that still wait for their parent to close -----

  function Waiting(closed: seq<Scope>, level: nat): int {
    if closed == [] then 0 else
      var n := |closed| - 1;
      if closed[n].depth < level then 0
      else Waiting(closed[..n], level) + if closed[n].depth == level then Length(closed[n]) else 0
  }

  lemma {:induction false} WaitingMore(closed: seq<Scope>, s: Scope, level: nat)
    ensures Waiting(closed + [s], level) ==
      if s.depth < level then 0 else Waiting(closed, level) + if s.depth == level then Length(s) else 0
  {
    assert (closed + [s])[..|closed|] == closed;
  }

  /** When scope i closes, the time waiting one level deeper is that of its direct children. */
  lemma {:induction false} WaitingIsChildren(closed: seq<Scope>, i: nat, n: nat)
    requires n <= i < |closed| && forall m :: n <= m < i ==> closed[m].depth > closed[i].depth
    ensures Waiting(closed[..n], closed[i].depth + 1) == ChildTime(closed, i, n)
  {
    if n > 0 {
      assert closed[..n][..n - 1] == closed[..n - 1];
      if closed[n - 1].depth <= closed[i].depth {
        NoChildrenBefore(closed, i, n - 1, n - 1);
      } else {
        WaitingIsChildren(closed, i, n - 1);
      }
    }
  }

  lemma {:induction false} NoChildrenBefore(closed: seq<Scope>, i: nat, barrier: nat, n: nat)
    requires n <= barrier < i < |closed| && closed[barrier].depth <= closed[i].depth
    ensures ChildTime(closed, i, n) == 0
  {
    if n > 0 { NoChildrenBefore(closed, i, barrier, n - 1); }
  }

  // ----- sums grow with the list -----

  lemma {:induction false} ChildTimeMore(closed: seq<Scope>, s: Scope, i: nat, n: nat)
    requires n <= i < |closed|
    ensures ChildTime(closed + [s], i, n) == ChildTime(closed, i, n)
  {
    if n > 0 {
      ChildTimeMore(closed, s, i, n - 1);
      var all := closed + [s];
      assert forall m :: 0 <= m <= i ==> all[m] == closed[m];
      assert IsChild(all, n - 1, i) <==> IsChild(closed, n - 1, i);
    }
  }

  lemma {:induction false} ExclusiveTimeMore(closed: seq<Scope>, s: Scope, k: nat, n: nat)
    requires n <= |closed|
    ensures ExclusiveTime(closed + [s], k, n) == ExclusiveTime(closed, k, n)
  {
    if n > 0 {
      ExclusiveTimeMore(closed, s, k, n - 1);
      ChildTimeMore(closed, s, n - 1, n - 1);
    }
  }

  lemma {:induction false} SumsMore(closed: seq<Scope>, s: Scope, k: nat)
    ensures InclusiveTime(closed + [s], k) == InclusiveTime(closed, k) + if s.timer == k then Length(s) else 0
    ensures ScopeCount(closed + [s], k) == ScopeCount(closed, k) + if s.timer == k then 1 else 0
    ensures ExclusiveTime(closed + [s], k, |closed| + 1) == ExclusiveTime(closed, k, |closed|)
      + if s.timer == k then Length(s) - Waiting(closed, s.depth + 1) else 0
  {
    var n := |closed|;
    var all := closed + [s];
    assert all[..n] == closed && all[n] == s;
    ExclusiveTimeMore(closed, s, k, n);
    WaitingIsChildren(all, n, n);
  }

  // ----- the theorem -----

  /** The replay has charged `base` and, on top, what the closed scopes come to; children wait at their levels. */
  ghost predicate Charged(groups: seq<nat>, base: Replay, r: Replay, t: Trace) {
    && WellFormed(base, groups) && WellFormed(r, groups) && |r.child| == |t.open| + 1
    && (forall k :: 0 <= k < |groups| ==>
          && r.ticks[k] == base.ticks[k] + InclusiveTime(t.closed, k)
          && r.counts[k] == base.counts[k] + ScopeCount(t.closed, k)
          && r.exclusive[k] == base.exclusive[k] + ExclusiveTime(t.closed, k, |t.closed|))
    && (forall level :: 0 < level <= |t.open| ==> r.child[level] == Waiting(t.closed, level))
    && (forall level: nat :: |t.open| < level ==> Waiting(t.closed, level) == 0)
  }

  lemma StepCharged(groups: seq<nat>, base: Replay, r: Replay, t: Trace, ev: Event)
    requires Matches(groups, r, t) && Charged(groups, base, r, t) && IsNext(groups, t, ev)
    ensures Timer(Packed(ev)) < |groups| && Charged(groups, base, Step(r, groups, Packed(ev)), Follow(t, ev))
  {
    hide Timer, Kind, Tick, TickDifference, Packed, OpenIn, Waiting, InclusiveTime, ScopeCount, ExclusiveTime;
    PackedFields(groups, t, ev);
    if ev.Leave? {
      var n := |t.open| - 1;
      var top := t.open[n];
      var s := Scope(top.timer, top.start, ev.tick, n);
      TrueDuration(groups, r, t, ev);
      var q, u := Step(r, groups, Packed(ev)), Follow(t, ev);
      assert u.closed == t.closed + [s] && Length(s) == ev.tick - top.start;
      assert r.child[n + 1] == Waiting(t.closed, n + 1);
      forall k | 0 <= k < |groups|
        ensures q.ticks[k] == base.ticks[k] + InclusiveTime(u.closed, k)
        ensures q.counts[k] == base.counts[k] + ScopeCount(u.closed, k)
        ensures q.exclusive[k] == base.exclusive[k] + ExclusiveTime(u.closed, k, |u.closed|)
      {
        SumsMore(t.closed, s, k);
      }
      forall level: nat | 0 < level
        ensures level <= n ==> q.child[level] == Waiting(u.closed, level)
        ensures n < level ==> Waiting(u.closed, level) == 0
      {
        WaitingMore(t.closed, s, level);
      }
    }
  }

  lemma StartsCharged(groups: seq<nat>, r: Replay, t: Trace)
    requires Starts(groups, r, t)
    ensures Charged(groups, r, r, t)
  {
  }

  lemma {:induction false} RunCharged(groups: seq<nat>, r: Replay, t: Trace, events: seq<Event>)
    requires Starts(groups, r, t) && WellNested(groups, t, events)
    ensures Known(groups, Log(events)) && WellFormed(r, groups)
    ensures Charged(groups, r, Run(r, groups, Log(events)), Trail(t, events))
  {
    hide Step, Packed, Matches, Log, Starts, Charged;
    StartsForm(groups, r, t);
    RunMatches(groups, r, t, events);
    if events == [] {
      StartsCharged(groups, r, t);
    } else {
      var n := |events| - 1;
      LogMore(events);
      RunMatches(groups, r, t, events[..n]);
      RunCharged(groups, r, t, events[..n]);
      StepCharged(groups, r, Run(r, groups, Log(events[..n])), Trail(t, events[..n]), events[n]);
    }
  }

  /**
   For every well-nested log and every timer k: its inclusive time gains the lengths of its closed scopes, its count
   gains their number, and its exclusive time gains, for each of them, the length less that of its direct children.
   */
  lemma {:induction false} TimerTimes(groups: seq<nat>, r: Replay, t: Trace, events: seq<Event>, k: nat)
    requires Starts(groups, r, t) && WellNested(groups, t, events) && k < |groups|
    ensures Known(groups, Log(events)) && WellFormed(r, groups)
    ensures var (q, closed) := (Run(r, groups, Log(events)), Trail(t, events).closed);
      && q.ticks[k] - r.ticks[k] == InclusiveTime(closed, k)
      && q.counts[k] == r.counts[k] + ScopeCount(closed, k)
      && q.exclusive[k] - r.exclusive[k] == ExclusiveTime(closed, k, |closed|)
  {
    hide Run, Log, Trail, WellNested, Starts;
    RunCharged(groups, r, t, events);
  }
}
