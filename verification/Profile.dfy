/**
 The per-thread log of externals/microprofile/microprofile.h: a ring buffer of packed entries that the thread
 fills and that every flip replays up to the position it had reached.
 */
module Profile {
  import opened ProfileSpec

  const STACK_MAX := 32

  /** The entries from `get` up to `put` in a ring. */
  function Between(log: seq<Entry>, get: nat, put: nat): seq<Entry>
    requires get < |log| && put < |log|
  {
    if put > get then log[get..put] else if put == get then [] else log[get..] + log[..put]
  }

  lemma NextIndex(i: nat, size: nat)
    requires i < size
    ensures (i + 1) % size == if i + 1 == size then 0 else i + 1
  {
  }

  lemma BetweenPut(log: seq<Entry>, get: nat, put: nat, next: nat, e: Entry)
    requires get < |log| && put < |log| && next == (if put + 1 == |log| then 0 else put + 1) && next != get
    ensures Between(log[put := e], get, next) == Between(log, get, put) + [e]
  {
  }

  /** What an entry at ring index k does to the ring indices of the open scopes. */
  function SlotStep(slots: seq<nat>, kind: nat, k: nat): seq<nat> {
    if kind == ENTER then slots + [k]
    else if kind == LEAVE && slots != [] then slots[..|slots| - 1]
    else slots
  }

  /** ... and what all the entries from ring index `from` up to `to` do. */
  function SlotRun(slots: seq<nat>, log: seq<Entry>, from: nat, to: nat): seq<nat>
    requires from <= to <= |log|
  {
    if from == to then slots else SlotStep(SlotRun(slots, log, from, to - 1), Kind(log[to - 1]), to - 1)
  }

  /** ... and what the entries from `get` up to `put` in the ring do. */
  function SlotsBetween(slots: seq<nat>, log: seq<Entry>, get: nat, put: nat): seq<nat>
    requires get < |log| && put < |log|
  {
    if put > get then SlotRun(slots, log, get, put)
    else if put == get then slots
    else SlotRun(SlotRun(slots, log, get, |log|), log, 0, put)
  }

  /** The ring range as one or two index intervals. */
  method GetRange(put: nat, get: nat, size: nat) returns (a: (nat, nat), b: (nat, nat))
    requires put < size && get < size
    ensures a.0 <= a.1 <= size && b.0 <= b.1 <= size
    ensures forall log: seq<Entry> :: |log| == size ==> log[a.0..a.1] + log[b.0..b.1] == Between(log, get, put)
    ensures forall slots, log: seq<Entry> :: |log| == size ==>
      SlotRun(SlotRun(slots, log, a.0, a.1), log, b.0, b.1) == SlotsBetween(slots, log, get, put)
  {
    a, b := (0, 0), (0, 0);
    if put > get {
      a := (get, put);
    } else if put != get {
      var countEnd := size - get;
      a := (get, get + countEnd);
      b := (0, put);
    }
  }

  /** The replay never gets deeper than the stacks are high. */
  ghost predicate Shallow(groups: seq<nat>, r: Replay, entries: seq<Entry>) {
    forall k {:trigger entries[..k]} :: 0 <= k <= |entries| ==>
      WellFormed(r, groups) && Known(groups, entries[..k]) && |Run(r, groups, entries[..k]).stack| < STACK_MAX
  }

  lemma {:induction false} ShallowSplit(groups: seq<nat>, r: Replay, a: seq<Entry>, b: seq<Entry>)
    requires Shallow(groups, r, a + b)
    ensures WellFormed(r, groups) && Known(groups, a) && Known(groups, b)
    ensures Shallow(groups, r, a) && Shallow(groups, Run(r, groups, a), b)
  {
    hide Run, Step, Timer;
    assert (a + b)[..|a + b|] == a + b;
    assert forall i :: 0 <= i < |a| ==> (a + b)[i] == a[i];
    assert forall i :: 0 <= i < |b| ==> (a + b)[|a| + i] == b[i];
    forall k | 0 <= k <= |a|
      ensures Known(groups, a[..k]) && |Run(r, groups, a[..k]).stack| < STACK_MAX
    {
      assert (a + b)[..k] == a[..k];
    }
    forall k | 0 <= k <= |b|
      ensures Known(groups, b[..k]) && |Run(Run(r, groups, a), groups, b[..k]).stack| < STACK_MAX
    {
      assert (a + b)[..|a| + k] == a + b[..k];
      RunConcat(r, groups, a, b[..k]);
    }
  }

  // ----- how high the stacks must be -----

  /** The assert that guards an entry. */
  predicate GuardHolds(r: Replay, e: Entry) {
    Kind(e) == ENTER ==> |r.stack| < STACK_MAX
  }

  /** The highest index of the child tick stack that an entry reads or writes, or -1. */
  function ChildIndex(r: Replay, e: Entry): int {
    if Kind(e) == ENTER then |r.stack| + 1
    else if Kind(e) == LEAVE && r.stack != [] then |r.stack|
    else -1
  }

  ghost predicate AllGuardsHold(groups: seq<nat>, r: Replay, entries: seq<Entry>)
    requires WellFormed(r, groups) && Known(groups, entries)
  {
    forall k {:trigger entries[..k]} :: 0 <= k < |entries| ==> GuardHolds(Run(r, groups, entries[..k]), entries[k])
  }

  ghost predicate AllInside(groups: seq<nat>, r: Replay, entries: seq<Entry>)
    requires WellFormed(r, groups) && Known(groups, entries)
  {
    forall k {:trigger entries[..k]} :: 0 <= k < |entries| ==>
      ChildIndex(Run(r, groups, entries[..k]), entries[k]) < STACK_MAX
  }

  /** One entry changes the depth by at most one. */
  lemma {:induction false} DepthStep(groups: seq<nat>, r: Replay, entries: seq<Entry>, k: nat)
    requires WellFormed(r, groups) && Known(groups, entries) && k < |entries|
    ensures var (n, m) := (|Run(r, groups, entries[..k]).stack|, |Run(r, groups, entries[..k + 1]).stack|);
      m == if Kind(entries[k]) == ENTER then n + 1 else if Kind(entries[k]) == LEAVE && n > 0 then n - 1 else n
  {
    hide Kind, Timer, TickDifference;
    assert entries[..k + 1] == entries[..k] + [entries[k]];
    RunMore(r, groups, entries[..k], entries[k]);
  }

  lemma {:induction false} DepthUpTo(groups: seq<nat>, r: Replay, entries: seq<Entry>, k: nat, top: nat)
    requires WellFormed(r, groups) && Known(groups, entries) && k <= |entries| && |r.stack| <= top
    requires forall i {:trigger entries[..i]} :: 0 <= i < k && Kind(entries[i]) == ENTER ==>
      |Run(r, groups, entries[..i]).stack| < top
    ensures |Run(r, groups, entries[..k]).stack| <= top
  {
    hide Run, Kind;
    if k == 0 {
      RunNothing(r, groups);
    } else {
      DepthUpTo(groups, r, entries, k - 1, top);
      DepthStep(groups, r, entries, k - 1);
    }
  }

  ghost predicate DepthWithin(groups: seq<nat>, r: Replay, entries: seq<Entry>, top: nat)
    requires WellFormed(r, groups) && Known(groups, entries)
  {
    forall k {:trigger entries[..k]} :: 0 <= k <= |entries| ==> |Run(r, groups, entries[..k]).stack| <= top
  }

  /** The guards admit exactly the logs that never have more than 32 scopes open. */
  lemma GuardsExactly(groups: seq<nat>, r: Replay, entries: seq<Entry>)
    requires WellFormed(r, groups) && Known(groups, entries) && |r.stack| <= STACK_MAX
    ensures AllGuardsHold(groups, r, entries) <==> DepthWithin(groups, r, entries, STACK_MAX)
  {
    hide Run, Kind;
    if AllGuardsHold(groups, r, entries) {
      forall k | 0 <= k <= |entries| ensures |Run(r, groups, entries[..k]).stack| <= STACK_MAX {
        DepthUpTo(groups, r, entries, k, STACK_MAX);
      }
    }
    if DepthWithin(groups, r, entries, STACK_MAX) {
      forall k | 0 <= k < |entries| ensures GuardHolds(Run(r, groups, entries[..k]), entries[k]) {
        DepthStep(groups, r, entries, k);
        assert |entries[..k + 1]| == k + 1;
      }
    }
  }

  /** The child tick stack is big enough exactly for the logs that never have more than 31 scopes open. */
  lemma InsideExactly(groups: seq<nat>, r: Replay, entries: seq<Entry>)
    requires WellFormed(r, groups) && Known(groups, entries) && |r.stack| < STACK_MAX
    ensures AllInside(groups, r, entries) <==> Shallow(groups, r, entries)
    ensures Shallow(groups, r, entries) <==> DepthWithin(groups, r, entries, STACK_MAX - 1)
  {
    hide Run, Kind;
    if AllInside(groups, r, entries) {
      forall k | 0 <= k <= |entries| ensures |Run(r, groups, entries[..k]).stack| < STACK_MAX {
        DepthUpTo(groups, r, entries, k, STACK_MAX - 1);
      }
    }
    if Shallow(groups, r, entries) {
      forall k | 0 <= k < |entries| ensures ChildIndex(Run(r, groups, entries[..k]), entries[k]) < STACK_MAX {
        DepthStep(groups, r, entries, k);
        assert |entries[..k + 1]| == k + 1;
      }
    }
  }

  /** So 32 scopes, one inside the other, pass every guard, and the last one writes behind the child tick stack. */
  lemma {:induction false} DeepLogWritesOutside(groups: seq<nat>, r: Replay, entries: seq<Entry>)
    requires WellFormed(r, groups) && Known(groups, entries) && r.stack == []
    requires |entries| == STACK_MAX && forall i :: 0 <= i < |entries| ==> Kind(entries[i]) == ENTER
    ensures AllGuardsHold(groups, r, entries)
    ensures ChildIndex(Run(r, groups, entries[..31]), entries[31]) == 32 && !AllInside(groups, r, entries)
  {
    hide Run, Kind;
    forall k | 0 <= k < |entries| ensures |Run(r, groups, entries[..k]).stack| == k {
      OnlyEnters(groups, r, entries, k);
    }
    OnlyEnters(groups, r, entries, 31);
  }

  lemma {:induction false} OnlyEnters(groups: seq<nat>, r: Replay, entries: seq<Entry>, k: nat)
    requires WellFormed(r, groups) && Known(groups, entries) && r.stack == [] && k <= |entries|
    requires forall i :: 0 <= i < |entries| ==> Kind(entries[i]) == ENTER
    ensures |Run(r, groups, entries[..k]).stack| == k
  {
    hide Run, Kind;
    if k == 0 {
      RunNothing(r, groups);
    } else {
      OnlyEnters(groups, r, entries, k - 1);
      DepthStep(groups, r, entries, k - 1);
    }
  }

  /** What a replay of such a log needs to know about entry n. */
  lemma {:induction false} ShallowAt(groups: seq<nat>, r: Replay, entries: seq<Entry>, n: nat)
    requires Shallow(groups, r, entries) && n < |entries|
    ensures WellFormed(r, groups) && Known(groups, entries[..n]) && Known(groups, entries[..n + 1])
    ensures Timer(entries[n]) < |groups| && ChildIndex(Run(r, groups, entries[..n]), entries[n]) < STACK_MAX
    ensures Run(r, groups, entries[..n + 1]) == Step(Run(r, groups, entries[..n]), groups, entries[n])
  {
    hide Run, Step, Kind, Timer, Shallow, Known;
    ShallowUpTo(groups, r, entries, n);
    ShallowUpTo(groups, r, entries, n + 1);
    ShallowUpTo(groups, r, entries, |entries|);
    assert entries[..|entries|] == entries && entries[..n + 1] == entries[..n] + [entries[n]];
    RunMore(r, groups, entries[..n], entries[n]);
    DepthStep(groups, r, entries, n);
  }

  lemma {:induction false} ShallowUpTo(groups: seq<nat>, r: Replay, entries: seq<Entry>, k: nat)
    requires Shallow(groups, r, entries) && k <= |entries|
    ensures WellFormed(r, groups) && Known(groups, entries[..k]) && |Run(r, groups, entries[..k]).stack| < STACK_MAX
  {
    hide Run, Known;
  }

  // ----- the log of a thread -----

  /** What a flip collects over all logs. */
  class Totals {
    var ticks: seq<int>
    var exclusive: seq<int>
    var counts: seq<nat>
    var frameGroup: seq<int>

    constructor (timers: nat)
      ensures IsClear(timers)
    {
      ticks, exclusive, counts := seq(timers, _ => 0), seq(timers, _ => 0), seq(timers, _ => 0);
      frameGroup := seq(GROUPS, _ => 0);
    }

    ghost predicate IsClear(timers: nat)
      reads this
    {
      && ticks == Zeros(timers) && exclusive == Zeros(timers) && counts == Zeros(timers)
      && frameGroup == Zeros(GROUPS)
    }

    /** One closed scope of a timer: how long it was, and how long without its children. */
    method Charge(timer: nat, inclusive: int, own: int)
      requires timer < |ticks| == |exclusive| == |counts|
      modifies `ticks, `exclusive, `counts
      ensures ticks == AddTo(old(ticks), timer, inclusive) && exclusive == AddTo(old(exclusive), timer, own)
      ensures counts == old(counts)[timer := old(counts)[timer] + 1]
    {
      ticks := ticks[timer := ticks[timer] + inclusive];
      exclusive := exclusive[timer := exclusive[timer] + own];
      counts := counts[timer := counts[timer] + 1];
    }

    /** What a flip starts with. */
    method Clear(timers: nat)
      modifies this
      ensures IsClear(timers)
    {
      ticks, exclusive, counts := seq(timers, _ => 0), seq(timers, _ => 0), seq(timers, _ => 0);
      frameGroup := seq(GROUPS, _ => 0);
    }
  }

  class ThreadLog {
    const log: array<Entry>
    var nPut: nat
    var nGet: nat
    var overflow: bool
    var stack: seq<nat>               // ring indices of the open ENTER entries
    var childTickStack: seq<int>
    var stackPos: nat
    var groupStackPos: seq<nat>
    var groupTicks: seq<int>

    constructor (size: nat)
      requires size > 1
      ensures Valid() && fresh(log) && log.Length == size && nPut == nGet == 0 && stackPos == 0
      ensures groupStackPos == Zeros(GROUPS) && groupTicks == Zeros(GROUPS) && childTickStack == Zeros(STACK_MAX)
    {
      log := new Entry[size](_ => 0);
      nPut, nGet, overflow, stackPos := 0, 0, false, 0;
      stack := seq(STACK_MAX, _ => 0);
      childTickStack := seq(STACK_MAX, _ => 0);
      groupStackPos := seq(GROUPS, _ => 0);
      groupTicks := seq(GROUPS, _ => 0);
    }

    ghost predicate Valid()
      reads this
    {
      && nPut < log.Length && nGet < log.Length && log.Length > 1
      && |stack| == |childTickStack| == STACK_MAX && stackPos < STACK_MAX
      && |groupStackPos| == |groupTicks| == GROUPS
      && forall i :: 0 <= i < stackPos ==> stack[i] < log.Length
    }

    /** The ENTER entries of the open scopes. */
    ghost function Opened(): seq<Entry>
      requires Valid()
      reads this, log
    {
      seq(stackPos, i requires 0 <= i < stackPos reads this, log requires Valid() => log[stack[i]])
    }

    ghost function View(totals: Totals, local: seq<int>): Replay
      requires Valid()
      reads this, log, totals
    {
      Replay(Opened(), childTickStack[..stackPos + 1], groupStackPos, local,
             totals.ticks, totals.exclusive, totals.counts)
    }

    /** The ring indices of the open scopes. */
    ghost function Slots(): seq<nat>
      requires Valid()
      reads this
    {
      stack[..stackPos]
    }

    /** What replaying does not touch. */
    twostate predicate RingUnchanged()
      reads this
    {
      unchanged(`nPut) && unchanged(`nGet) && unchanged(`groupTicks)
    }

    /** The entries put since the last flip. */
    ghost function Pending(): seq<Entry>
      requires Valid()
      reads this, log
    {
      Between(log[..], nGet, nPut)
    }

    /** Appends an entry, unless the ring is full. */
    method LogPut(token: nat, tick: int, kind: nat)
      requires Valid() && kind < 4
      modifies this, log
      ensures Valid() && nGet == old(nGet) && unchanged(`stack) && unchanged(`stackPos) && unchanged(`childTickStack)
      ensures unchanged(`groupStackPos) && unchanged(`groupTicks)
      ensures var full := (old(nPut) + 1) % log.Length == old(nGet);
        && (full ==> overflow && nPut == old(nPut) && log[..] == old(log[..]))
        && (!full ==> Pending() == old(Pending()) + [MakeEntry(kind, token, tick)])
        && (!full ==> log[..] == old(log[..])[old(nPut) := MakeEntry(kind, token, tick)])
        && (!full ==> nPut == (old(nPut) + 1) % log.Length)
      ensures (old(nPut) + 1) % log.Length == old(nGet) || old(nPut) !in old(stack[..stackPos]) ==>
        Opened() == old(Opened())
    {
      hide MakeEntry, Between;
      var pos := nPut;
      var nextPos := (pos + 1) % log.Length;
      if nextPos == nGet {
        overflow := true;
      } else {
        var entry := MakeEntry(kind, token, tick);
        NextIndex(pos, log.Length);
        BetweenPut(log[..], nGet, pos, nextPos, entry);
        assert forall i :: 0 <= i < stackPos ==> stack[i] == stack[..stackPos][i];
        log[pos] := entry;
        assert log[..] == old(log[..])[pos := entry];
        nPut := nextPos;
      }
    }

    /** One iteration of the replay loop, at ring index k; `local` are the group ticks of this flip. */
    method ReplayEntry(k: nat, groups: seq<nat>, totals: Totals, local: seq<int>) returns (result: seq<int>)
      requires Valid() && k < log.Length && WellFormed(View(totals, local), groups) && Timer(log[k]) < |groups|
      requires ChildIndex(View(totals, local), log[k]) < STACK_MAX
      modifies this, totals
      ensures Valid() && RingUnchanged() && totals.frameGroup == old(totals.frameGroup)
      ensures View(totals, result) == Step(old(View(totals, local)), groups, log[k])
      ensures Slots() == SlotStep(old(Slots()), Kind(log[k]), k)
    {
      hide TickDifference, Kind, Timer;
      result := local;
      var entry := log[k];
      var kind := Kind(entry);
      if kind == ENTER {
        var group := groups[Timer(entry)];
        assert GuardHolds(View(totals, local), entry);
        groupStackPos := groupStackPos[group := (groupStackPos[group] + 1) % 256];
        stack := stack[stackPos := k];
        stackPos := stackPos + 1;
        childTickStack := childTickStack[stackPos := 0];
        assert Opened() == old(Opened()) + [entry];
        assert childTickStack[..stackPos + 1] == old(childTickStack[..stackPos + 1]) + [0];
      } else if kind == LEAVE {
        result := ReplayLeave(entry, groups, totals, local);
      }
    }

    /** Only the outermost scope of a group counts. */
    method LeaveGroup(group: nat, ticks: int, local: seq<int>) returns (result: seq<int>)
      requires group < |groupStackPos| == |local|
      modifies `groupStackPos
      ensures var pos := old(groupStackPos[group]);
        && groupStackPos == (if pos > 0 then old(groupStackPos)[group := pos - 1] else old(groupStackPos))
        && result == if pos == 1 then AddTo(local, group, ticks) else local
    {
      result := local;
      var pos := groupStackPos[group];
      if pos > 0 {
        pos := pos - 1;
        if pos == 0 { result := local[group := local[group] + ticks]; }
        groupStackPos := groupStackPos[group := pos];
      }
    }

    method ReplayLeave(entry: Entry, groups: seq<nat>, totals: Totals, local: seq<int>) returns (result: seq<int>)
      requires Valid() && WellFormed(View(totals, local), groups) && Timer(entry) < |groups| && Kind(entry) == LEAVE
      modifies this, totals
      ensures Valid() && RingUnchanged() && totals.frameGroup == old(totals.frameGroup)
      ensures View(totals, result) == Step(old(View(totals, local)), groups, entry)
      ensures Slots() == SlotStep(old(Slots()), LEAVE, 0)
    {
      hide TickDifference, Kind, Timer;
      result := local;
      var timer := Timer(entry);
      var group := groups[timer];
      if stackPos > 0 {
        var tickStart := log[stack[stackPos - 1]];
        assert tickStart == Opened()[stackPos - 1];
        var ticks := TickDifference(tickStart, entry);
        var childTicks := childTickStack[stackPos];
        stackPos := stackPos - 1;
        childTickStack := childTickStack[stackPos := childTickStack[stackPos] + ticks];
        totals.Charge(timer, ticks, ticks - childTicks);
        result := LeaveGroup(group, ticks, local);
        assert Opened() == old(Opened())[..stackPos];
        assert childTickStack[..stackPos + 1]
            == AddTo(old(childTickStack[..stackPos + 1])[..stackPos + 1], stackPos, ticks);
      }
    }

    /** Replays ring indices from `from` up to `to`. */
    method ReplayInterval(from: nat, to: nat, groups: seq<nat>, totals: Totals, local: seq<int>)
      returns (result: seq<int>)
      requires Valid() && from <= to <= log.Length && WellFormed(View(totals, local), groups)
      requires Shallow(groups, View(totals, local), log[from..to])
      modifies this, totals
      ensures Valid() && RingUnchanged() && totals.frameGroup == old(totals.frameGroup)
      ensures Known(groups, log[from..to])
      ensures View(totals, result) == Run(old(View(totals, local)), groups, log[from..to])
      ensures Slots() == SlotRun(old(Slots()), log[..], from, to)
    {
      hide Step, Timer, Kind, Run, SlotRun, Shallow, ChildIndex, SlotStep;
      ghost var r := View(totals, local);
      ghost var entries := log[from..to];
      assert entries[..|entries|] == entries && entries[..0] == [];
      RunNothing(r, groups);
      assert SlotRun(Slots(), log[..], from, from) == Slots() by { NoSlotRun(Slots(), log[..], from); }
      result := local;
      for k := from to to
        invariant Valid() && RingUnchanged() && totals.frameGroup == old(totals.frameGroup)
        invariant Slots() == SlotRun(old(Slots()), log[..], from, k)
        invariant Known(groups, entries[..k - from]) && View(totals, result) == Run(r, groups, entries[..k - from])
      {
        ShallowAt(groups, r, entries, k - from);
        SlotRunMore(old(Slots()), log[..], from, k);
        result := ReplayEntry(k, groups, totals, result);
      }
    }

    /**
     One log's part of a flip: replays the entries from ring index `get` up to `put`, then adds the group ticks
     they came to.
     */
    method ReplayFrame(get: nat, put: nat, groups: seq<nat>, totals: Totals)
      requires Valid() && get < log.Length && put < log.Length && |totals.frameGroup| == GROUPS
      requires WellFormed(View(totals, Zeros(GROUPS)), groups)
      requires Shallow(groups, View(totals, Zeros(GROUPS)), Between(log[..], get, put))
      modifies this, totals
      ensures Valid() && unchanged(`nPut) && unchanged(`nGet)
      ensures Slots() == SlotsBetween(old(Slots()), log[..], get, put)
      ensures Known(groups, Between(log[..], get, put))
      ensures var q := Run(old(View(totals, Zeros(GROUPS))), groups, Between(log[..], get, put));
        && View(totals, q.groupTicks) == q
        && |totals.frameGroup| == GROUPS
        && forall g :: 0 <= g < GROUPS ==>
             groupTicks[g] == old(groupTicks[g]) + q.groupTicks[g] &&
             totals.frameGroup[g] == old(totals.frameGroup[g]) + q.groupTicks[g]
    {
      hide Run, Step, Between, Shallow, SlotRun, SlotsBetween;
      var local := seq(GROUPS, _ => 0);
      assert local == Zeros(GROUPS);
      var a, b := GetRange(put, get, log.Length);
      ghost var r := View(totals, local);
      assert log[..][a.0..a.1] == log[a.0..a.1] && log[..][b.0..b.1] == log[b.0..b.1];
      ShallowSplit(groups, r, log[a.0..a.1], log[b.0..b.1]);
      RunConcat(r, groups, log[a.0..a.1], log[b.0..b.1]);
      local := ReplayInterval(a.0, a.1, groups, totals, local);
      local := ReplayInterval(b.0, b.1, groups, totals, local);
      groupTicks := Added(groupTicks, local);
      totals.frameGroup := Added(totals.frameGroup, local);
    }
  }

  function Added(a: seq<int>, b: seq<int>): (r: seq<int>)
    requires |a| == |b|
    ensures |r| == |a| && forall i :: 0 <= i < |a| ==> r[i] == a[i] + b[i]
  {
    seq(|a|, i requires 0 <= i < |a| => a[i] + b[i])
  }

  lemma {:induction false} NoSlotRun(slots: seq<nat>, log: seq<Entry>, from: nat)
    requires from <= |log|
    ensures SlotRun(slots, log, from, from) == slots
  {
  }

  lemma SlotRunMore(slots: seq<nat>, log: seq<Entry>, from: nat, k: nat)
    requires from <= k < |log|
    ensures SlotRun(slots, log, from, k + 1) == SlotStep(SlotRun(slots, log, from, k), Kind(log[k]), k)
  {
  }

}
