/**
 The pool of per-thread logs in externals/microprofile/microprofile.h: logs of threads that have ended
 go to a free list threaded through the logs themselves, and new threads take them from there.
 */
module ThreadLogs {

  const MAX_THREADS := 32

  type Thread = int

  // ----- free list and ownership, on values -----

  /** The fields of a log that the pool looks at. */
  datatype Info = Info(nPut: nat, nGet: nat, active: bool, next: int)

  const STARTED := Info(0, 0, true, -1)

  /** Following the free list from `head` meets the logs `free`, empty and each once, and then ends. */
  ghost predicate Linked(infos: seq<Info>, free: seq<nat>, head: int) {
    if free == [] then head == -1 else
      && head == free[0] && 0 < head < |infos| && head !in free[1..]
      && infos[head].(next := 0) == Info(0, 0, false, 0)
      && Linked(infos, free[1..], infos[head].next)
  }

  /** The free list holds exactly the inactive logs. */
  ghost predicate Listed(infos: seq<Info>, free: seq<nat>, head: int) {
    && Linked(infos, free, head)
    && forall i :: 0 <= i < |infos| ==> (infos[i].active <==> i !in free)
  }

  lemma {:induction false} LinkedUpdate(infos: seq<Info>, free: seq<nat>, head: int, i: nat, info: Info)
    requires Linked(infos, free, head) && i < |infos| && i !in free
    ensures Linked(infos[i := info], free, head)
  {
    if free != [] { LinkedUpdate(infos, free[1..], infos[head].next, i, info); }
  }

  lemma {:induction false} LinkedGrow(infos: seq<Info>, free: seq<nat>, head: int, info: Info)
    requires Linked(infos, free, head)
    ensures Linked(infos + [info], free, head)
  {
    if free != [] { LinkedGrow(infos, free[1..], infos[head].next, info); }
  }

  /** The free list after `k` links. */
  ghost function Follow(infos: seq<Info>, head: int, k: nat): int
    decreases k
  {
    if k == 0 || head < 0 || head >= |infos| then head else Follow(infos, infos[head].next, k - 1)
  }

  /** The free list has no cycle: its links visit different logs, exactly the inactive ones, and then end. */
  lemma {:induction false} ListEnds(infos: seq<Info>, free: seq<nat>, head: int)
    requires Linked(infos, free, head)
    ensures Follow(infos, head, |free|) == -1
    ensures forall k :: 0 <= k < |free| ==> Follow(infos, head, k) == free[k]
    ensures forall k, m :: 0 <= k < m < |free| ==> Follow(infos, head, k) != Follow(infos, head, m)
    decreases |free|
  {
    if free != [] {
      var next := infos[head].next;
      ListEnds(infos, free[1..], next);
      forall k | 0 < k <= |free|
        ensures Follow(infos, head, k) == Follow(infos, next, k - 1)
      {
      }
      assert forall k :: 0 < k < |free| ==> Follow(infos, head, k) == free[1..][k - 1];
    }
  }

  /** All the logs after a flip, which drops what has been written so far. */
  ghost function Flipped(infos: seq<Info>): (r: seq<Info>)
    ensures |r| == |infos| && forall i :: 0 <= i < |r| ==> r[i] == infos[i].(nGet := infos[i].nPut)
  {
    seq(|infos|, i requires 0 <= i < |infos| => infos[i].(nGet := infos[i].nPut))
  }

  lemma {:induction false} LinkedFlip(infos: seq<Info>, free: seq<nat>, head: int)
    requires Linked(infos, free, head)
    ensures Linked(Flipped(infos), free, head)
  {
    if free != [] { LinkedFlip(infos, free[1..], infos[head].next); }
  }

  /** Every active log but the GPU's, which is number 0, belongs to exactly one running thread. */
  ghost predicate Owned(n: nat, free: seq<nat>, owned: map<Thread, nat>) {
    && (forall t :: t in owned ==> 0 < owned[t] < n && owned[t] !in free)
    && (forall t, u :: t in owned && u in owned && t != u ==> owned[t] != owned[u])
    && |owned| + 1 + |free| == n
  }

  lemma PopKeeps(infos: seq<Info>, free: seq<nat>, head: int, owned: map<Thread, nat>, t: Thread)
    requires Listed(infos, free, head) && Owned(|infos|, free, owned) && free != [] && t !in owned
    ensures 0 < head < |infos| && head == free[0] && infos[head].nPut == 0 && infos[head].nGet == 0
    ensures Listed(infos[head := STARTED], free[1..], infos[head].next)
    ensures Owned(|infos|, free[1..], owned[t := head]) && |owned[t := head]| + 1 <= |infos|
  {
    assert free == [head] + free[1..];
    LinkedUpdate(infos, free[1..], infos[head].next, head, STARTED);
    assert |owned[t := head]| == |owned| + 1;
  }

  lemma GrowKeeps(infos: seq<Info>, head: int, owned: map<Thread, nat>, t: Thread)
    requires Listed(infos, [], head) && Owned(|infos|, [], owned) && t !in owned && |infos| > 0
    ensures head == -1 && |owned[t := |infos|]| + 1 == |infos| + 1
    ensures Listed(infos + [STARTED], [], head) && Owned(|infos| + 1, [], owned[t := |infos|])
  {
    assert |owned[t := |infos|]| == |owned| + 1;
  }

  lemma PushKeeps(infos: seq<Info>, free: seq<nat>, head: int, owned: map<Thread, nat>, t: Thread)
    requires Listed(infos, free, head) && Owned(|infos|, free, owned) && t in owned
    ensures var i := owned[t];
      && 0 < i < |infos|
      && Listed(infos[i := Info(0, 0, false, head)], [i] + free, i) && Owned(|infos|, [i] + free, owned - {t})
  {
    var i := owned[t];
    LinkedUpdate(infos, free, head, i, Info(0, 0, false, head));
    assert ([i] + free)[1..] == free;
    assert owned == (owned - {t})[t := i];
  }

  ghost predicate ReachesEnd(infos: seq<Info>, head: int) {
    exists k: nat :: Follow(infos, head, k) == -1
  }

  /** In a linked list every log points at the next one. */
  lemma {:induction false} LinksInOrder(infos: seq<Info>, free: seq<nat>, head: int, m: nat)
    requires Linked(infos, free, head) && m < |free|
    ensures free[0] == head && free[m] < |infos| && (m + 1 < |free| ==> infos[free[m]].next == free[m + 1])
    decreases m
  {
    if m > 0 { LinksInOrder(infos, free[1..], infos[head].next, m - 1); }
  }

  /** With the log at position `j` put in front again, its links never leave the first `j + 1` logs. */
  lemma {:induction false} GoesRound(infos: seq<Info>, free: seq<nat>, head: int, j: nat, m: nat, k: nat)
    requires Linked(infos, free, head) && m <= j < |free| && free[j] < |infos|
    ensures Follow(infos[free[j] := Info(0, 0, false, head)], free[m], k) >= 0
    decreases k
  {
    LinksInOrder(infos, free, head, m);
    if k > 0 {
      GoesRound(infos, free, head, j, if free[m] == free[j] then 0 else m + 1, k - 1);
    }
  }

  /** Putting a log on the list that is on it already ties it into a ring; otherwise the list still ends. */
  lemma {:induction false} ExitEndsExactly(infos: seq<Info>, free: seq<nat>, head: int, i: nat)
    requires Linked(infos, free, head) && 0 < i < |infos|
    ensures ReachesEnd(infos[i := Info(0, 0, false, head)], i) <==> i !in free
  {
    var infos' := infos[i := Info(0, 0, false, head)];
    if i in free {
      var j: nat :| j < |free| && free[j] == i;
      forall k: nat ensures Follow(infos', i, k) != -1 {
        GoesRound(infos, free, head, j, j, k);
      }
    } else {
      LinkedUpdate(infos, free, head, i, infos'[i]);
      assert ([i] + free)[1..] == free;
      ListEnds(infos', [i] + free, i);
    }
  }

  /** Some reading of the free list is right for the running threads. */
  ghost predicate Sane(infos: seq<Info>, head: int, owned: map<Thread, nat>) {
    exists free :: Listed(infos, free, head) && Owned(|infos|, free, owned)
  }

  /**
   A thread that exits gives back the log it points to, and keeps the pointer.  The pool is right afterwards if and
   only if the log was still the thread's own.  A second exit either ties the list into a ring (`ExitEndsExactly`) or,
   when another thread has taken the log since, puts a log in use on the list.
   */
  lemma ExitSoundExactly(infos: seq<Info>, free: seq<nat>, head: int, owned: map<Thread, nat>, t: Thread, i: nat)
    requires Listed(infos, free, head) && Owned(|infos|, free, owned)
    requires 0 < i < |infos| && (t in owned ==> owned[t] == i)
    ensures Sane(infos[i := Info(0, 0, false, head)], i, owned - {t}) <==> t in owned
  {
    hide Listed, Owned;
    var infos' := infos[i := Info(0, 0, false, head)];
    if t in owned {
      PushKeeps(infos, free, head, owned, t);
    } else {
      assert owned - {t} == owned;
      forall free' | Listed(infos', free', i) && Owned(|infos'|, free', owned) ensures false {
        ListLengths(infos, free, head, i, free');
        OwnedLengths(|infos|, free, free', owned);
        StillLinked(infos', free', i);
        ExitEndsExactly(infos, free, head, i);
      }
    }
  }

  lemma {:induction false} StillLinked(infos: seq<Info>, free: seq<nat>, head: int)
    requires Listed(infos, free, head)
    ensures Linked(infos, free, head) && ReachesEnd(infos, head)
  {
    ListEnds(infos, free, head);
  }

  lemma OwnedLengths(n: nat, free: seq<nat>, free': seq<nat>, owned: map<Thread, nat>)
    requires Owned(n, free, owned) && Owned(n, free', owned)
    ensures |free| == |free'|
  {
  }

  function Elements(s: seq<nat>): set<nat> {
    set i | i in s
  }

  lemma {:induction false} LinkedDistinct(infos: seq<Info>, free: seq<nat>, head: int)
    requires Linked(infos, free, head)
    ensures |Elements(free)| == |free|
  {
    if free != [] {
      LinkedDistinct(infos, free[1..], infos[head].next);
      assert free == [free[0]] + free[1..];
      assert Elements(free) == Elements(free[1..]) + {free[0]};
    }
  }

  /** Putting an active log on the list makes it longer by one. */
  lemma ListLengths(infos: seq<Info>, free: seq<nat>, head: int, i: nat, free': seq<nat>)
    requires Listed(infos, free, head) && i < |infos| && Listed(infos[i := Info(0, 0, false, head)], free', i)
    ensures Linked(infos, free, head)
    ensures i !in free ==> |free'| == |free| + 1
  {
    var infos' := infos[i := Info(0, 0, false, head)];
    LinkedDistinct(infos, free, head);
    LinkedDistinct(infos', free', i);
    ListedInside(infos, free, head);
    ListedInside(infos', free', i);
    if i !in free {
      assert Elements(free') == Elements(free) + {i};
    }
  }

  lemma {:induction false} ListedInside(infos: seq<Info>, free: seq<nat>, head: int)
    requires Linked(infos, free, head)
    ensures forall k :: k in free ==> k < |infos|
  {
    if free != [] {
      ListedInside(infos, free[1..], infos[head].next);
      assert free == [free[0]] + free[1..];
    }
  }

  // ----- every history of threads starting and ending -----

  /** The pool as a value; `peak` is the most logs that were ever active at once, the GPU's included. */
  datatype PoolState = PoolState(infos: seq<Info>, free: seq<nat>, head: int, owned: map<Thread, nat>, peak: nat)

  datatype Change =
    | Begins(thread: Thread)
    | Ends(thread: Thread)
    | Puts(log: nat, position: nat)   // an active log moves its put position
    | Flips                           // every log's get position catches up

  const FIRST := PoolState([STARTED], [], -1, map[], 1)

  function Max(a: nat, b: nat): nat {
    if a < b then b else a
  }

  predicate CanChange(s: PoolState, c: Change) {
    match c
    case Begins(t) =>
      && t !in s.owned && (s.free == [] ==> |s.infos| < MAX_THREADS)
      && (s.free != [] ==> 0 <= s.head < |s.infos|)
    case Ends(t) => t in s.owned && s.owned[t] < |s.infos|
    case Puts(i, _) => i < |s.infos| && s.infos[i].active
    case Flips => true
  }

  ghost function Changed(s: PoolState, c: Change): PoolState
    requires CanChange(s, c)
  {
    match c
    case Begins(t) =>
      var owned := s.owned[t := if s.free == [] then |s.infos| else s.head];
      if s.free == [] then PoolState(s.infos + [STARTED], [], s.head, owned, Max(s.peak, |owned| + 1))
      else PoolState(s.infos[s.head := STARTED], s.free[1..], s.infos[s.head].next, owned, Max(s.peak, |owned| + 1))
    case Ends(t) =>
      var i := s.owned[t];
      PoolState(s.infos[i := Info(0, 0, false, s.head)], [i] + s.free, i, s.owned - {t}, s.peak)
    case Puts(i, position) => s.(infos := s.infos[i := s.infos[i].(nPut := position)])
    case Flips => s.(infos := Flipped(s.infos))
  }

  ghost predicate Sound(s: PoolState) {
    Listed(s.infos, s.free, s.head) && Owned(|s.infos|, s.free, s.owned) && s.peak == |s.infos| > 0
  }

  lemma PutKeeps(infos: seq<Info>, free: seq<nat>, head: int, i: nat, position: nat)
    requires Listed(infos, free, head) && i < |infos| && infos[i].active
    ensures Listed(infos[i := infos[i].(nPut := position)], free, head)
  {
    LinkedUpdate(infos, free, head, i, infos[i].(nPut := position));
  }

  lemma FlipKeeps(infos: seq<Info>, free: seq<nat>, head: int)
    requires Listed(infos, free, head)
    ensures Listed(Flipped(infos), free, head)
  {
    LinkedFlip(infos, free, head);
  }

  lemma ChangeKeeps(s: PoolState, c: Change)
    requires Sound(s) && CanChange(s, c)
    ensures Sound(Changed(s, c))
  {
    hide Listed;
    match c
    case Begins(t) =>
      if s.free == [] {
        GrowKeeps(s.infos, s.head, s.owned, t);
      } else {
        PopKeeps(s.infos, s.free, s.head, s.owned, t);
      }
    case Ends(t) => PushKeeps(s.infos, s.free, s.head, s.owned, t);
    case Puts(i, position) => PutKeeps(s.infos, s.free, s.head, i, position);
    case Flips => FlipKeeps(s.infos, s.free, s.head);
  }

  ghost predicate Leads(s: PoolState, changes: seq<Change>, t: PoolState)
    decreases |changes|
  {
    if changes == [] then s == t
    else CanChange(s, changes[0]) && Leads(Changed(s, changes[0]), changes[1..], t)
  }

  /**
   After any history: the free list ends and holds exactly the inactive logs, all empty; no two running threads
   share a log; and there are exactly as many logs as were ever active at once.
   */
  lemma {:induction false} HistoryKeeps(s: PoolState, changes: seq<Change>, t: PoolState)
    requires Sound(s) && Leads(s, changes, t)
    ensures Sound(t)
    decreases |changes|
  {
    hide Sound, Changed, CanChange;
    if changes != [] {
      ChangeKeeps(s, changes[0]);
      HistoryKeeps(Changed(s, changes[0]), changes[1..], t);
    }
  }

  /** After a flip nothing is left to read in any log, and nothing else has changed. */
  lemma FlipReadsAll(s: PoolState, i: nat)
    requires i < |s.infos|
    ensures var t := Changed(s, Flips);
      && |t.infos| == |s.infos| && t.infos[i].nGet == t.infos[i].nPut == s.infos[i].nPut
      && t.infos[i].active == s.infos[i].active && t.infos[i].next == s.infos[i].next
      && t.(infos := s.infos) == s
  {
  }

  lemma FirstIsSound()
    ensures Sound(FIRST)
  {
  }

  // ----- the pool -----

  class Log {
    var nPut: nat
    var nGet: nat
    var active: bool
    var freeListNext: int

    constructor ()
      ensures View() == Info(0, 0, false, 0)
    {
      nPut, nGet, active, freeListNext := 0, 0, false, 0;
    }

    function View(): Info
      reads this
    {
      Info(nPut, nGet, active, freeListNext)
    }

    method Release(next: int)
      modifies this
      ensures View() == Info(0, 0, false, next)
    {
      freeListNext := next;
      active := false;
      nPut := 0;
      nGet := 0;
    }

    method Start()
      modifies this
      ensures View() == Info(old(nPut), old(nGet), true, -1)
    {
      freeListNext := -1;
      active := true;
    }

    method Reset()
      modifies this
      ensures View() == Info(0, 0, false, 0)
    {
      nPut, nGet, active, freeListNext := 0, 0, false, 0;
    }
  }

  class LogPool {
    const pool: array<Log?>
    var freeListHead: int
    var numLogs: nat
    var threadLog: map<Thread, Log>     // every thread's own log pointer

    ghost var logs: seq<Log>            // the logs in the pool
    ghost var free: seq<nat>            // the free list, as pool indices
    ghost var owned: map<Thread, nat>   // the running threads and their logs
    ghost var points: map<Thread, nat>  // where the pointers of all threads go, also of those that have ended
    ghost var peak: nat                 // the most logs that were ever active at once

    /** The pool array holds the logs, all different. */
    ghost predicate Stored()
      reads this, pool
    {
      && pool.Length == MAX_THREADS && 1 <= numLogs == |logs| <= MAX_THREADS
      && pool[..numLogs] == logs
      && (forall i, j :: 0 <= i < j < |logs| ==> logs[i] != logs[j])
      && (forall i :: numLogs <= i < MAX_THREADS ==> pool[i] == null)
    }

    ghost predicate Pointing(logs: seq<Log>, owned: map<Thread, nat>, points: map<Thread, nat>,
                             threadLog: map<Thread, Log>) {
      && (forall t :: t in owned ==> t in points && points[t] == owned[t])
      && (forall t :: t in points <==> t in threadLog)
      && (forall t :: t in points ==> 0 < points[t] < |logs| && threadLog[t] == logs[points[t]])
    }

    ghost function Infos(): (s: seq<Info>)
      reads this, logs
      ensures |s| == |logs| && forall i :: 0 <= i < |s| ==> s[i] == logs[i].View()
    {
      seq(|logs|, i requires 0 <= i < |logs| reads this, logs => logs[i].View())
    }

    ghost predicate Valid()
      reads this, pool, logs
    {
      && Stored() && Pointing(logs, owned, points, threadLog)
      && Listed(Infos(), free, freeListHead) && Owned(|logs|, free, owned) && peak == numLogs
    }

    /** The pool as a value. */
    ghost function State(): PoolState
      reads this, logs
    {
      PoolState(Infos(), free, freeListHead, owned, peak)
    }

    constructor ()
      ensures Valid() && State() == FIRST && threadLog == map[]
      ensures fresh(pool) && fresh(logs)
    {
      pool := new Log?[MAX_THREADS](_ => null);
      freeListHead, numLogs, threadLog := -1, 0, map[];
      logs, free, owned, points, peak := [], [], map[], map[], 0;
      new;
      var gpu := new Log();
      pool[0] := gpu;
      numLogs := 1;
      logs, peak := [gpu], 1;
      gpu.freeListNext := -1;
      gpu.active := true;
      assert Infos() == [STARTED];
    }

    /** A starting thread gets a log of its own: the one freed last, or a new one. */
    method OnThreadCreate(t: Thread) returns (log: Log)
      requires Valid() && t !in threadLog
      requires free == [] ==> numLogs < MAX_THREADS
      modifies this, pool, logs
      ensures Valid() && CanChange(old(State()), Begins(t)) && State() == Changed(old(State()), Begins(t))
      ensures t in owned && owned[t] < |logs| && log == logs[owned[t]] && threadLog == old(threadLog)[t := log]
      ensures if old(free) == [] then logs == old(logs) + [log] && fresh(log) else logs == old(logs)
    {
      if freeListHead != -1 {
        log := TakeFree(t);
      } else {
        log := AddLog(t);
      }
    }

    method TakeFree(t: Thread) returns (log: Log)
      requires Valid() && t !in threadLog && free != []
      modifies this, logs
      ensures Valid() && CanChange(old(State()), Begins(t)) && State() == Changed(old(State()), Begins(t))
      ensures threadLog == old(threadLog)[t := log] && logs == old(logs)
    {
      hide Listed, Owned, Pointing, Stored;
      ghost var infos, head := Infos(), freeListHead;
      NotOwned(logs, owned, points, threadLog, t);
      PopKeeps(infos, free, head, owned, t);
      PointAgain(logs, head, owned, points, threadLog, t);
      PoolSize();
      log := Reuse(t);
    }

    lemma PoolSize()
      requires Stored()
      ensures numLogs == |logs| > 0
    {
    }

    method Reuse(t: Thread) returns (log: Log)
      requires Stored() && 0 <= freeListHead < |logs| && free != []
      requires logs[freeListHead].nPut == logs[freeListHead].nGet == 0
      modifies `freeListHead, `threadLog, `owned, `points, `free, logs
      ensures var i := old(freeListHead);
        && Stored() && log == logs[i] && freeListHead == old(Infos())[i].next
        && Infos() == old(Infos())[i := STARTED]
        && threadLog == old(threadLog)[t := log] && free == old(free)[1..]
        && owned == old(owned)[t := i] && points == old(points)[t := i]
    {
      ghost var i := freeListHead;
      log := pool[freeListHead];
      assert log == logs[i];
      assert log.nPut == 0;
      assert log.nGet == 0;
      freeListHead := pool[freeListHead].freeListNext;
      log.Reset();
      log.Start();
      threadLog := threadLog[t := log];
      owned, points, free := owned[t := i], points[t := i], free[1..];
    }

    method AddLog(t: Thread) returns (log: Log)
      requires Valid() && t !in threadLog && free == [] && numLogs < MAX_THREADS
      modifies this, pool
      ensures Valid() && CanChange(old(State()), Begins(t)) && State() == Changed(old(State()), Begins(t))
      ensures threadLog == old(threadLog)[t := log] && logs == old(logs) + [log] && fresh(log)
    {
      hide Listed, Owned, Pointing, Stored;
      PoolSize();
      ghost var infos := Infos();
      log := new Log();
      log.Start();
      PointAt(logs, log, owned, points, threadLog, t);
      GrowKeeps(infos, freeListHead, owned, t);
      assert Stored() && Infos() == infos;
      Store(log, t);
    }

    lemma NotOwned(logs: seq<Log>, owned: map<Thread, nat>, points: map<Thread, nat>, threadLog: map<Thread, Log>,
                   t: Thread)
      requires Pointing(logs, owned, points, threadLog) && t !in threadLog
      ensures t !in owned
    {
    }

    lemma PointAgain(logs: seq<Log>, i: nat, owned: map<Thread, nat>, points: map<Thread, nat>,
                     threadLog: map<Thread, Log>, t: Thread)
      requires Pointing(logs, owned, points, threadLog) && t !in threadLog && 0 < i < |logs|
      ensures Pointing(logs, owned[t := i], points[t := i], threadLog[t := logs[i]])
    {
    }

    lemma PointStill(logs: seq<Log>, owned: map<Thread, nat>, points: map<Thread, nat>, threadLog: map<Thread, Log>,
                     t: Thread)
      requires Pointing(logs, owned, points, threadLog) && t in threadLog
      ensures t in points && 0 < points[t] < |logs| && threadLog[t] == logs[points[t]]
      ensures t in owned ==> owned[t] == points[t]
      ensures Pointing(logs, owned - {t}, points, threadLog)
    {
    }

    lemma PointAt(logs: seq<Log>, log: Log, owned: map<Thread, nat>, points: map<Thread, nat>,
                  threadLog: map<Thread, Log>, t: Thread)
      requires Pointing(logs, owned, points, threadLog) && t !in threadLog && logs != []
      ensures t !in owned && Pointing(logs + [log], owned[t := |logs|], points[t := |logs|], threadLog[t := log])
    {
    }

    method Store(log: Log, t: Thread)
      requires Stored() && numLogs < MAX_THREADS && log !in logs && log.View() == STARTED
      modifies pool, `numLogs, `logs, `threadLog, `owned, `points, `peak
      ensures Stored() && logs == old(logs) + [log] && numLogs == |logs|
      ensures Infos() == old(Infos()) + [STARTED] && threadLog == old(threadLog)[t := log]
      ensures owned == old(owned)[t := |old(logs)|] && points == old(points)[t := |old(logs)|] && peak == old(peak) + 1
    {
      pool[numLogs] := log;
      numLogs := numLogs + 1;
      threadLog := threadLog[t := log];
      logs, owned, points, peak := logs + [log], owned[t := |logs|], points[t := |logs|], peak + 1;
      assert pool[..numLogs] == old(pool[..numLogs]) + [log];
    }

    /** The pool index of a log: a search for the pointer. */
    method FindLog(log: Log) returns (logIndex: int)
      requires Stored() && log in logs
      ensures 0 <= logIndex < |logs| && logs[logIndex] == log
    {
      logIndex := -1;
      var i := 0;
      ghost var k :| 0 <= k < |logs| && logs[k] == log;
      while i < MAX_THREADS
        invariant 0 <= i <= k && logIndex == -1
      {
        if log == pool[i] {
          logIndex := i;
          break;
        }
        assert pool[i] == logs[i];
        i := i + 1;
      }
    }

    /**
     A thread that ends puts its log at the head of the free list.  Afterwards the pool is right again if and only if
     the thread had not ended before.
     */
    method OnThreadExit(t: Thread)
      requires Valid()
      modifies this, logs
      ensures logs == old(logs) && threadLog == old(threadLog)
      ensures t !in threadLog ==> Valid() && State() == old(State())
      ensures t in threadLog && t in old(owned) ==>
        Valid() && CanChange(old(State()), Ends(t)) && State() == Changed(old(State()), Ends(t))
      ensures t in threadLog && t !in old(owned) ==>
        Stored() && owned == old(owned) && !Sane(Infos(), freeListHead, owned)
    {
      hide Listed, Owned, Sane, Pointing, Stored;
      if t in threadLog {
        PointStill(logs, owned, points, threadLog, t);
        ghost var infos, head, i := Infos(), freeListHead, points[t];
        if t in owned { PushKeeps(infos, free, head, owned, t); }
        ExitSoundExactly(infos, free, head, owned, t, i);
        GiveBack(threadLog[t], i, t);
        assert t !in old(owned) ==> owned == old(owned);
      }
    }

    method GiveBack(log: Log, ghost i: nat, ghost t: Thread)
      requires Stored() && 0 < i < |logs| && log == logs[i]
      modifies `freeListHead, `free, `owned, log
      ensures Stored() && freeListHead == i && Infos() == old(Infos())[i := Info(0, 0, false, old(freeListHead))]
      ensures free == [i] + old(free) && owned == old(owned) - {t}
    {
      var logIndex := FindLog(log);
      assert 0 < logIndex < MAX_THREADS && logIndex == i;
      log.Release(freeListHead);
      freeListHead := logIndex;
      free, owned := [i] + free, owned - {t};
    }

    /** Writing to a log in use, as far as the pool can see it. */
    method Put(log: Log, position: nat, ghost i: nat)
      requires Valid() && i < |logs| && log == logs[i] && log.active
      modifies log`nPut
      ensures Valid() && State() == Changed(old(State()), Puts(i, position))
    {
      hide Listed, Owned;
      ghost var infos := Infos();
      PutKeeps(infos, free, freeListHead, i, position);
      log.nPut := position;
      assert Infos() == infos[i := infos[i].(nPut := position)];
    }

    /** A flip, as far as the pool can see it: every log, also one on the free list, is read up to its end. */
    method Flip()
      requires Valid()
      modifies logs
      ensures Valid() && State() == Changed(old(State()), Flips)
    {
      hide Listed, Owned;
      FlipKeeps(Infos(), free, freeListHead);
      var i := 0;
      while i < MAX_THREADS
        invariant 0 <= i <= MAX_THREADS && Stored()
        invariant forall j :: 0 <= j < |logs| ==>
          logs[j].View() == if j < i then old(logs[j].View()).(nGet := old(logs[j].nPut)) else old(logs[j].View())
      {
        var log := pool[i];
        if log != null {
          assert log == logs[i];
          log.nGet := log.nPut;
        }
        i := i + 1;
      }
      assert Infos() == Flipped(old(Infos()));
    }
  }
}
