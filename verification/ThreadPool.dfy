/**
 The thread pool of externals/httplib/httplib.h as a state machine: one step for everything a
 thread does while it holds the mutex, one for each notification, in any order.
 */
module ThreadPool {

  type Job = int

  /** A worker is about to test its wait condition, asleep on it, running a job, or gone. */
  datatype Worker = Ready | Sleeping | Running(job: Job) | Exited

  datatype Pool = Pool(
    jobs: seq<Job>,
    shutdown: bool,
    workers: seq<Worker>,
    notifyOnes: nat,              // notify_one calls that enqueues still have to make
    notifyAll: bool,              // the notify_all that shutdown still has to make
    joined: nat,                  // workers joined so far
    enqueued: seq<Job>,           // history: everything enqueued, everything taken, everything finished
    dequeued: seq<Job>,
    completed: multiset<Job>,
    late: bool)                   // history: something was enqueued when every worker had exited

  function Init(n: nat): Pool {
    Pool([], false, seq(n, _ => Ready), 0, false, 0, [], [], multiset{}, false)
  }

  datatype Step =
    | Push(job: Job)
    | NotifyOne(woken: nat)
    | Shutdown
    | NotifyAll
    | Check(worker: nat)
    | Finish(worker: nat)
    | WakeSpuriously(worker: nat)
    | Join

  predicate Enabled(s: Pool, step: Step) {
    match step
    case Push(_) => true
    case NotifyOne(w) =>
      s.notifyOnes > 0 && (Count(s.workers, IsSleeping) > 0 ==> w < |s.workers| && s.workers[w].Sleeping?)
    case Shutdown => !s.shutdown
    case NotifyAll => s.notifyAll
    case Check(w) => w < |s.workers| && s.workers[w].Ready?
    case Finish(w) => w < |s.workers| && s.workers[w].Running?
    case WakeSpuriously(w) => w < |s.workers| && s.workers[w].Sleeping?
    case Join => s.shutdown && !s.notifyAll && s.joined < |s.workers| && s.workers[s.joined].Exited?
  }

  function Apply(s: Pool, step: Step): Pool
    requires Enabled(s, step)
  {
    match step
    case Push(job) =>
      s.(jobs := s.jobs + [job], notifyOnes := s.notifyOnes + 1, enqueued := s.enqueued + [job],
         late := s.late || AllExited(s.workers))
    case NotifyOne(w) =>
      var workers := if Count(s.workers, IsSleeping) > 0 then s.workers[w := Ready] else s.workers;
      s.(workers := workers, notifyOnes := s.notifyOnes - 1)
    case Shutdown => s.(shutdown := true, notifyAll := true)
    case NotifyAll => s.(workers := Awake(s.workers), notifyAll := false)
    case Check(w) =>
      if s.jobs != [] then
        s.(workers := s.workers[w := Running(s.jobs[0])], jobs := s.jobs[1..], dequeued := s.dequeued + [s.jobs[0]])
      else s.(workers := s.workers[w := if s.shutdown then Exited else Sleeping])
    case Finish(w) =>
      s.(workers := s.workers[w := Ready], completed := s.completed + multiset{s.workers[w].job})
    case WakeSpuriously(w) => s.(workers := s.workers[w := Ready])
    case Join => s.(joined := s.joined + 1)
  }

  /** `steps`, in this order, lead from `s` to `t`. */
  ghost predicate Leads(s: Pool, steps: seq<Step>, t: Pool)
    decreases |steps|
  {
    if steps == [] then s == t
    else Enabled(s, steps[0]) && Leads(Apply(s, steps[0]), steps[1..], t)
  }

  // ----- counting workers -----

  predicate IsReady(w: Worker) { w.Ready? }
  predicate IsSleeping(w: Worker) { w.Sleeping? }

  predicate AllExited(ws: seq<Worker>) {
    forall i :: 0 <= i < |ws| ==> ws[i].Exited?
  }

  function Count(ws: seq<Worker>, p: Worker -> bool): nat {
    if ws == [] then 0 else (if p(ws[0]) then 1 else 0) + Count(ws[1..], p)
  }

  function Awake(ws: seq<Worker>): (r: seq<Worker>)
    ensures |r| == |ws|
  {
    seq(|ws|, i requires 0 <= i < |ws| => if ws[i].Sleeping? then Ready else ws[i])
  }

  function InHandOf(w: Worker): multiset<Job> {
    if w.Running? then multiset{w.job} else multiset{}
  }

  function InHand(ws: seq<Worker>): multiset<Job> {
    if ws == [] then multiset{} else InHandOf(ws[0]) + InHand(ws[1..])
  }

  lemma {:induction false} CountUpdate(ws: seq<Worker>, i: nat, w: Worker, p: Worker -> bool)
    requires i < |ws|
    ensures Count(ws[i := w], p) + (if p(ws[i]) then 1 else 0) == Count(ws, p) + (if p(w) then 1 else 0)
  {
    if i == 0 {
      assert ws[i := w][1..] == ws[1..];
    } else {
      assert ws[i := w][1..] == ws[1..][i - 1 := w];
      CountUpdate(ws[1..], i - 1, w, p);
    }
  }

  lemma {:induction false} CountPositive(ws: seq<Worker>, i: nat, p: Worker -> bool)
    requires i < |ws| && p(ws[i])
    ensures Count(ws, p) > 0
  {
    if i > 0 { CountPositive(ws[1..], i - 1, p); }
  }

  lemma {:induction false} CountWitness(ws: seq<Worker>, p: Worker -> bool) returns (i: nat)
    requires Count(ws, p) > 0
    ensures i < |ws| && p(ws[i])
  {
    if p(ws[0]) { i := 0; } else {
      i := CountWitness(ws[1..], p);
      i := i + 1;
    }
  }

  lemma {:induction false} InHandUpdate(ws: seq<Worker>, i: nat, w: Worker)
    requires i < |ws|
    ensures InHand(ws[i := w]) + InHandOf(ws[i]) == InHand(ws) + InHandOf(w)
  {
    hide InHandOf;
    var tail := ws[1..];
    if i == 0 {
      assert ws[i := w][1..] == tail;
      Reorder(InHandOf(w), InHand(tail), InHandOf(ws[i]));
    } else {
      assert ws[i := w][1..] == tail[i - 1 := w];
      InHandUpdate(tail, i - 1, w);
      Regroup(InHandOf(ws[0]), InHand(tail[i - 1 := w]), InHandOf(ws[i]));
      Regroup(InHandOf(ws[0]), InHand(tail), InHandOf(w));
    }
  }

  lemma Reorder(a: multiset<Job>, b: multiset<Job>, c: multiset<Job>)
    ensures (a + b) + c == (c + b) + a
  {
  }

  lemma Regroup(a: multiset<Job>, b: multiset<Job>, c: multiset<Job>)
    ensures (a + b) + c == a + (b + c)
  {
  }

  lemma {:induction false} InHandAwake(ws: seq<Worker>)
    ensures InHand(Awake(ws)) == InHand(ws)
  {
    if ws != [] {
      assert Awake(ws)[1..] == Awake(ws[1..]);
      InHandAwake(ws[1..]);
    }
  }

  lemma {:induction false} InHandNone(ws: seq<Worker>)
    requires forall i :: 0 <= i < |ws| ==> !ws[i].Running?
    ensures InHand(ws) == multiset{}
  {
    if ws != [] { InHandNone(ws[1..]); }
  }

  // ----- what every step keeps -----

  /** Jobs leave the queue in the order they came; none is lost and none is taken twice. */
  ghost predicate JobsKept(s: Pool) {
    && s.enqueued == s.dequeued + s.jobs
    && multiset(s.dequeued) == s.completed + InHand(s.workers)
  }

  /** No wake-up is lost. */
  ghost predicate WakesKept(s: Pool) {
    && (Count(s.workers, IsSleeping) > 0 ==> |s.jobs| <= s.notifyOnes + Count(s.workers, IsReady))
    && (s.notifyAll ==> s.shutdown)
    && (s.shutdown && !s.notifyAll ==> Count(s.workers, IsSleeping) == 0)
  }

  /** A worker only leaves after shutdown, and the last one leaves an empty queue. */
  ghost predicate ExitsKept(s: Pool) {
    && (forall i :: 0 <= i < |s.workers| && s.workers[i].Exited? ==> s.shutdown)
    && (AllExited(s.workers) ==> (s.late <==> s.jobs != []))
    && (s.late ==> AllExited(s.workers))
    && s.joined <= |s.workers| && forall i :: 0 <= i < s.joined ==> s.workers[i].Exited?
  }

  ghost predicate Inv(s: Pool) {
    JobsKept(s) && WakesKept(s) && ExitsKept(s)
  }

  lemma InitKeeps(n: nat)
    ensures Inv(Init(n))
  {
    var ws := Init(n).workers;
    InHandNone(ws);
    if Count(ws, IsSleeping) > 0 { var i := CountWitness(ws, IsSleeping); }
  }

  lemma UpdateKeeps(ws: seq<Worker>, i: nat, w: Worker)
    requires i < |ws|
    ensures var r := ws[i := w];
      && Count(r, IsSleeping) + (if ws[i].Sleeping? then 1 else 0)
         == Count(ws, IsSleeping) + (if w.Sleeping? then 1 else 0)
      && Count(r, IsReady) + (if ws[i].Ready? then 1 else 0) == Count(ws, IsReady) + (if w.Ready? then 1 else 0)
      && (!ws[i].Running? && !w.Running? ==> InHand(r) == InHand(ws))
      && (!ws[i].Running? && w.Running? ==> InHand(r) == InHand(ws) + multiset{w.job})
      && (ws[i].Running? && !w.Running? ==> InHand(r) + multiset{ws[i].job} == InHand(ws))
  {
    hide InHand;
    CountUpdate(ws, i, w, IsSleeping);
    CountUpdate(ws, i, w, IsReady);
    InHandUpdate(ws, i, w);
    assert InHand(ws) + multiset{} == InHand(ws) && InHand(ws[i := w]) + multiset{} == InHand(ws[i := w]);
  }

  lemma NoSleepersAwake(ws: seq<Worker>)
    ensures Count(Awake(ws), IsSleeping) == 0
  {
    if Count(Awake(ws), IsSleeping) > 0 { var i := CountWitness(Awake(ws), IsSleeping); }
  }

  lemma StepKeepsJobs(s: Pool, step: Step)
    requires JobsKept(s) && Enabled(s, step)
    ensures JobsKept(Apply(s, step))
  {
    hide Count, InHand, Awake;
    match step
    case NotifyOne(w) => if Count(s.workers, IsSleeping) > 0 { UpdateKeeps(s.workers, w, Ready); }
    case NotifyAll => InHandAwake(s.workers);
    case Check(w) =>
      if s.jobs != [] {
        UpdateKeeps(s.workers, w, Running(s.jobs[0]));
        assert s.dequeued + s.jobs == s.dequeued + [s.jobs[0]] + s.jobs[1..];
        assert multiset(s.dequeued + [s.jobs[0]]) == multiset(s.dequeued) + multiset{s.jobs[0]};
      } else {
        UpdateKeeps(s.workers, w, if s.shutdown then Exited else Sleeping);
      }
    case Finish(w) => UpdateKeeps(s.workers, w, Ready);
    case WakeSpuriously(w) => UpdateKeeps(s.workers, w, Ready);
    case _ =>
  }

  lemma StepKeepsWakes(s: Pool, step: Step)
    requires WakesKept(s) && Enabled(s, step)
    ensures WakesKept(Apply(s, step))
  {
    hide Count, InHand, Awake;
    match step
    case NotifyOne(w) => if Count(s.workers, IsSleeping) > 0 { UpdateKeeps(s.workers, w, Ready); }
    case NotifyAll => NoSleepersAwake(s.workers);
    case Check(w) =>
      UpdateKeeps(s.workers, w,
                  if s.jobs != [] then Running(s.jobs[0]) else if s.shutdown then Exited else Sleeping);
    case Finish(w) => UpdateKeeps(s.workers, w, Ready);
    case WakeSpuriously(w) => UpdateKeeps(s.workers, w, Ready);
    case _ =>
  }

  lemma StepKeepsExits(s: Pool, step: Step)
    requires ExitsKept(s) && Enabled(s, step)
    ensures ExitsKept(Apply(s, step))
  {
    hide Count, Awake;
    var workers := Apply(s, step).workers;
    match step
    case NotifyOne(w) => if Count(s.workers, IsSleeping) > 0 { assert workers[w].Ready? && !s.workers[w].Exited?; }
    case NotifyAll =>
      AwakeElements(s.workers);
      assert forall i :: 0 <= i < |workers| ==> (workers[i].Exited? <==> s.workers[i].Exited?);
    case Check(w) => assert !s.workers[w].Exited? && (workers[w].Exited? ==> s.jobs == []);
    case Finish(w) => assert workers[w].Ready? && !s.workers[w].Exited?;
    case WakeSpuriously(w) => assert workers[w].Ready? && !s.workers[w].Exited?;
    case _ =>
  }

  lemma StepKeeps(s: Pool, step: Step)
    requires Inv(s) && Enabled(s, step)
    ensures Inv(Apply(s, step))
  {
    hide Enabled, Apply, JobsKept, WakesKept, ExitsKept;
    StepKeepsJobs(s, step);
    StepKeepsWakes(s, step);
    StepKeepsExits(s, step);
  }

  lemma AwakeElements(ws: seq<Worker>)
    ensures |Awake(ws)| == |ws|
    ensures forall i :: 0 <= i < |ws| ==> Awake(ws)[i] == if ws[i].Sleeping? then Ready else ws[i]
  {
  }

  lemma {:induction false} RunKeeps(s: Pool, steps: seq<Step>, t: Pool)
    requires Inv(s) && Leads(s, steps, t)
    ensures Inv(t)
    decreases |steps|
  {
    if steps != [] {
      StepKeeps(s, steps[0]);
      RunKeeps(Apply(s, steps[0]), steps[1..], t);
    }
  }

  // ----- what that means for every run -----

  /** Whatever the schedule: jobs are taken first in, first out, and each is finished at most once. */
  lemma {:induction false} FirstInFirstOut(n: nat, steps: seq<Step>, t: Pool)
    requires Leads(Init(n), steps, t)
    ensures t.dequeued <= t.enqueued && t.enqueued == t.dequeued + t.jobs
    ensures t.completed <= multiset(t.dequeued) <= multiset(t.enqueued)
  {
    InitKeeps(n);
    RunKeeps(Init(n), steps, t);
  }

  /**
   Once every worker has been joined, everything ever enqueued has been run to its end, if and only if nothing was
   enqueued after the last worker had gone.
   */
  lemma {:induction false} ShutdownCompletes(n: nat, steps: seq<Step>, t: Pool)
    requires Leads(Init(n), steps, t) && t.joined == |t.workers|
    ensures t.completed == multiset(t.enqueued) <==> !t.late
    ensures !t.late ==> t.jobs == [] && t.dequeued == t.enqueued
  {
    InitKeeps(n);
    RunKeeps(Init(n), steps, t);
    AllJoined(t);
    assert multiset(t.enqueued) == multiset(t.dequeued) + multiset(t.jobs);
    assert |multiset(t.jobs)| == |t.jobs|;
    if !t.late { assert t.dequeued + [] == t.dequeued; }
  }

  /** The jobs `early` have been enqueued, and once a worker has gone, they have all been taken. */
  ghost predicate EarlyTaken(s: Pool, early: seq<Job>) {
    early <= s.enqueued && forall i :: 0 <= i < |s.workers| && s.workers[i].Exited? ==> early <= s.dequeued
  }

  lemma EarlyTakenStep(s: Pool, step: Step, early: seq<Job>)
    requires JobsKept(s) && Enabled(s, step) && EarlyTaken(s, early)
    ensures EarlyTaken(Apply(s, step), early)
  {
    hide Count, InHand, Awake;
    AwakeElements(s.workers);
    if s.jobs == [] { assert s.dequeued + s.jobs == s.dequeued; }
  }

  lemma {:induction false} EarlyTakenRun(s: Pool, steps: seq<Step>, t: Pool, early: seq<Job>)
    requires JobsKept(s) && Leads(s, steps, t) && EarlyTaken(s, early)
    ensures EarlyTaken(t, early)
    decreases |steps|
  {
    hide JobsKept, EarlyTaken, Enabled, Apply;
    if steps != [] {
      StepKeepsJobs(s, steps[0]);
      EarlyTakenStep(s, steps[0], early);
      EarlyTakenRun(Apply(s, steps[0]), steps[1..], t, early);
    }
  }

  /** In any case, whatever is enqueued later: what was enqueued before shutdown has been run to its end by then. */
  lemma {:induction false} EarlyJobsComplete(n: nat, before: seq<Step>, s: Pool, after: seq<Step>, t: Pool)
    requires n > 0 && Leads(Init(n), before, s) && !s.shutdown
    requires Leads(Apply(s, Shutdown), after, t) && t.joined == |t.workers|
    ensures multiset(s.enqueued) <= t.completed
  {
    hide Inv, JobsKept, EarlyTaken, AllExited;
    InitKeeps(n);
    RunKeeps(Init(n), before, s);
    WorkerCount(Init(n), before, s);
    var down := Apply(s, Shutdown);
    StepKeeps(s, Shutdown);
    RunKeeps(down, after, t);
    WorkerCount(down, after, t);
    NoneGoneYet(s);
    EarlyTakenRun(down, after, t, s.enqueued);
    EarlyTakenEnd(t, s.enqueued);
  }

  lemma NoneGoneYet(s: Pool)
    requires Inv(s) && !s.shutdown
    ensures var down := Apply(s, Shutdown); JobsKept(down) && EarlyTaken(down, s.enqueued)
  {
    hide InHand, Count;
  }

  lemma EarlyTakenEnd(t: Pool, early: seq<Job>)
    requires Inv(t) && EarlyTaken(t, early) && t.joined == |t.workers| > 0
    ensures multiset(early) <= t.completed
  {
    AllJoined(t);
    assert t.workers[0].Exited?;
    assert t.dequeued == early + t.dequeued[|early|..];
    assert multiset(t.dequeued) == multiset(early) + multiset(t.dequeued[|early|..]);
  }

  lemma AllJoined(t: Pool)
    requires Inv(t) && t.joined == |t.workers|
    ensures AllExited(t.workers) && multiset(t.dequeued) == t.completed
  {
    InHandNone(t.workers);
  }

  /** With every worker gone nothing is ever taken again: a job enqueued then stays in the queue for good. */
  lemma {:induction false} LateJobIsStranded(s: Pool, steps: seq<Step>, t: Pool)
    requires AllExited(s.workers) && Leads(s, steps, t)
    ensures s.jobs <= t.jobs && t.dequeued == s.dequeued && t.completed == s.completed && AllExited(t.workers)
    decreases |steps|
  {
    if steps != [] {
      AwakeElements(s.workers);
      LateJobIsStranded(Apply(s, steps[0]), steps[1..], t);
    }
  }

  lemma {:induction false} WorkerCount(s: Pool, steps: seq<Step>, t: Pool)
    requires Leads(s, steps, t)
    ensures |t.workers| == |s.workers|
    decreases |steps|
  {
    if steps != [] { WorkerCount(Apply(s, steps[0]), steps[1..], t); }
  }

  // ----- the pool never gets stuck -----

  /** A step that the pool and its callers make on their own, without new work and without luck. */
  predicate IsProgress(step: Step) {
    step.NotifyOne? || step.NotifyAll? || step.Check? || step.Finish? || step.Join?
  }

  /** As long as there is a job that somebody is left to run, or a worker to be joined, something can go on. */
  lemma {:induction false} NeverStuck(n: nat, steps: seq<Step>, s: Pool)
    requires Leads(Init(n), steps, s)
    requires (s.jobs != [] && !s.late) || (s.shutdown && s.joined < |s.workers|)
    ensures exists step :: IsProgress(step) && Enabled(s, step)
  {
    InitKeeps(n);
    RunKeeps(Init(n), steps, s);
    if s.notifyAll {
      assert IsProgress(NotifyAll) && Enabled(s, NotifyAll);
    } else if s.notifyOnes > 0 {
      var w := 0;
      if Count(s.workers, IsSleeping) > 0 { w := CountWitness(s.workers, IsSleeping); }
      assert IsProgress(NotifyOne(w)) && Enabled(s, NotifyOne(w));
    } else if Count(s.workers, IsReady) > 0 {
      var w := CountWitness(s.workers, IsReady);
      assert IsProgress(Check(w)) && Enabled(s, Check(w));
    } else {
      var w: nat;
      if s.shutdown && s.joined < |s.workers| {
        w := s.joined;
      } else {
        w :| w < |s.workers| && !s.workers[w].Exited?;
      }
      if s.workers[w].Ready? { CountPositive(s.workers, w, IsReady); }
      if s.workers[w].Sleeping? { CountPositive(s.workers, w, IsSleeping); }
      if s.workers[w].Running? {
        assert IsProgress(Finish(w)) && Enabled(s, Finish(w));
      } else {
        assert IsProgress(Join) && Enabled(s, Join);
      }
    }
  }

  // ----- shutdown ends -----

  function Weight(w: Worker): nat {
    match w
    case Exited => 0
    case Ready => 1
    case Running(_) => 2
    case Sleeping => 2
  }

  function Total(ws: seq<Worker>): nat {
    if ws == [] then 0 else Weight(ws[0]) + Total(ws[1..])
  }

  /** Work left to do after shutdown. */
  function Left(s: Pool): int {
    3 * |s.jobs| + Total(s.workers) + s.notifyOnes + (if s.notifyAll then 1 else 0) + |s.workers| - s.joined
  }

  lemma {:induction false} TotalUpdate(ws: seq<Worker>, i: nat, w: Worker)
    requires i < |ws|
    ensures Total(ws[i := w]) + Weight(ws[i]) == Total(ws) + Weight(w)
  {
    if i == 0 {
      assert ws[i := w][1..] == ws[1..];
    } else {
      assert ws[i := w][1..] == ws[1..][i - 1 := w];
      TotalUpdate(ws[1..], i - 1, w);
    }
  }

  lemma {:induction false} TotalAwake(ws: seq<Worker>)
    ensures Total(Awake(ws)) <= Total(ws)
  {
    if ws != [] {
      assert Awake(ws)[1..] == Awake(ws[1..]);
      TotalAwake(ws[1..]);
    }
  }

  /** After shutdown every step but a new enqueue leaves less to do, spurious wake-ups included. */
  lemma StepLeavesLess(s: Pool, step: Step)
    requires Inv(s) && s.shutdown && Enabled(s, step) && !step.Push?
    ensures 0 <= Left(Apply(s, step)) < Left(s) && Apply(s, step).shutdown
  {
    hide Total, Count, Awake;
    match step
    case NotifyOne(w) => if Count(s.workers, IsSleeping) > 0 { TotalUpdate(s.workers, w, Ready); }
    case NotifyAll => TotalAwake(s.workers);
    case Check(w) =>
      TotalUpdate(s.workers, w, if s.jobs != [] then Running(s.jobs[0]) else Exited);
    case Finish(w) => TotalUpdate(s.workers, w, Ready);
    case WakeSpuriously(w) => TotalUpdate(s.workers, w, Ready);
    case Join =>
  }

  /** So any run after shutdown, without new work, has at most Left(s) steps. */
  lemma {:induction false} ShutdownEnds(s: Pool, steps: seq<Step>, t: Pool)
    requires Inv(s) && s.shutdown && Leads(s, steps, t) && forall i :: 0 <= i < |steps| ==> !steps[i].Push?
    ensures |steps| <= Left(s)
    decreases |steps|
  {
    if steps != [] {
      StepLeavesLess(s, steps[0]);
      StepKeeps(s, steps[0]);
      ShutdownEnds(Apply(s, steps[0]), steps[1..], t);
    } else {
      assert 0 <= Left(s);
    }
  }

  /**
   Shutting down always comes to its end: left alone, the pool makes at most Left(s) more steps, and where it can make
   none of its own any more, every worker has been joined.
   */
  lemma {:induction false} ShutdownFinishes(n: nat, steps: seq<Step>, s: Pool, more: seq<Step>, t: Pool)
    requires Leads(Init(n), steps, s) && s.shutdown
    requires Leads(s, more, t) && forall i :: 0 <= i < |more| ==> !more[i].Push?
    ensures |more| <= Left(s)
    ensures (forall step :: IsProgress(step) ==> !Enabled(t, step)) ==> t.joined == |t.workers|
  {
    InitKeeps(n);
    RunKeeps(Init(n), steps, s);
    ShutdownEnds(s, more, t);
    StaysDown(s, more, t);
    RunKeeps(s, more, t);
    LeadsOn(Init(n), steps, s, more, t);
    if t.joined < |t.workers| { NeverStuck(n, steps + more, t); }
  }

  lemma {:induction false} StaysDown(s: Pool, steps: seq<Step>, t: Pool)
    requires s.shutdown && Leads(s, steps, t)
    ensures t.shutdown
    decreases |steps|
  {
    if steps != [] { StaysDown(Apply(s, steps[0]), steps[1..], t); }
  }

  lemma {:induction false} LeadsOn(r: Pool, a: seq<Step>, s: Pool, b: seq<Step>, t: Pool)
    requires Leads(r, a, s) && Leads(s, b, t)
    ensures Leads(r, a + b, t)
    decreases |a|
  {
    if a == [] {
      assert a + b == b;
    } else {
      LeadsOn(Apply(r, a[0]), a[1..], s, b, t);
      assert (a + b)[1..] == a[1..] + b;
    }
  }

  /** Such a run: the only worker finds the queue empty and goes, and a job comes after that. */
  lemma StrandedRun()
    ensures var steps := [Shutdown, NotifyAll, Check(0), Push(7), Join];
      exists t :: Leads(Init(1), steps, t) && t.joined == |t.workers| && t.jobs == [7] && t.completed == multiset{}
  {
    var s0 := Init(1);
    var s1 := Apply(s0, Shutdown);
    assert Awake(s1.workers) == [Ready];
    var s2 := Apply(s1, NotifyAll);
    var s3 := Apply(s2, Check(0));
    var s4 := Apply(s3, Push(7));
    assert s4.workers[0].Exited?;
    var s5 := Apply(s4, Join);
    var steps := [Shutdown, NotifyAll, Check(0), Push(7), Join];
    assert Leads(s5, [], s5);
    assert steps[4..] == [Join] && [Join][1..] == [];
    assert Leads(s4, steps[4..], s5);
    assert steps[3..][1..] == steps[4..];
    assert Leads(s3, steps[3..], s5);
    assert steps[2..][1..] == steps[3..];
    assert Leads(s2, steps[2..], s5);
    assert steps[1..][1..] == steps[2..];
    assert Leads(s1, steps[1..], s5);
    assert Leads(s0, steps, s5);
  }
}
