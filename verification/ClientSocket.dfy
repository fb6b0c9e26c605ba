/**
 The "requests in flight" protocol of the HTTP client in externals/httplib/httplib.h: send (with
 nested sends for redirects on the same thread) and stop, called from any number of threads.
 What a thread does under socket_mutex_ is one step; request_mutex_ is recursive and held
 from step to step.
 */
module ClientSocket {
  import opened Wrappers

  type Thread = int

  /** One call of send on a thread's stack: before its critical section, using the socket, or about to return. */
  datatype Frame = Entered | InFlight | Returned

  datatype Client = Client(
    owner: Option<Thread>,            // request_mutex_
    depth: nat,
    inFlight: nat,                    // socket_requests_in_flight_
    from: Option<Thread>,             // socket_requests_are_from_thread_
    shouldClose: bool,                // socket_should_be_closed_when_request_is_done_
    open: bool,                       // the socket
    stacks: map<Thread, seq<Frame>>)  // the sends each thread is in, innermost last

  const INIT := Client(None, 0, 0, None, false, false, map[])

  datatype Step =
    | Send(thread: Thread)
    | Begin(thread: Thread, alive: bool, connected: bool)
    | PeerCloses(thread: Thread)
    | Finish(thread: Thread, closeConnection: bool)
    | Retry(thread: Thread)
    | Return(thread: Thread)
    | Stop(thread: Thread)

  function Stack(s: Client, t: Thread): seq<Frame> {
    if t in s.stacks then s.stacks[t] else []
  }

  predicate TopIs(s: Client, t: Thread, f: Frame) {
    Stack(s, t) != [] && Stack(s, t)[|Stack(s, t)| - 1] == f
  }

  function WithTop(s: Client, t: Thread, f: Frame): Client
    requires Stack(s, t) != []
  {
    s.(stacks := s.stacks[t := Stack(s, t)[|Stack(s, t)| - 1 := f]])
  }

  predicate Enabled(s: Client, step: Step) {
    match step
    case Send(t) => (s.owner == None || s.owner == Some(t)) && (Stack(s, t) == [] || TopIs(s, t, InFlight))
    case Begin(t, _, _) => TopIs(s, t, Entered)
    case PeerCloses(t) => TopIs(s, t, InFlight)
    case Finish(t, _) => TopIs(s, t, InFlight)
    case Retry(t) => TopIs(s, t, Returned)
    case Return(t) => TopIs(s, t, Returned)
    case Stop(t) => true
  }

  /** Does the step close the socket, or try to? */
  predicate Closes(s: Client, step: Step) {
    match step
    case Begin(_, alive, _) => s.open && !alive
    case PeerCloses(_) => true
    case Finish(_, closeConnection) => s.shouldClose || closeConnection
    case Stop(_) => s.inFlight == 0
    case _ => false
  }

  function Apply(s: Client, step: Step): Client
    requires Enabled(s, step)
  {
    match step
    case Send(t) => s.(owner := Some(t), depth := s.depth + 1, stacks := s.stacks[t := Stack(s, t) + [Entered]])
    case Begin(t, alive, connected) =>
      var reuse := s.open && alive;
      if !reuse && !connected then WithTop(s, t, Returned).(shouldClose := false, open := false)
      else WithTop(s, t, InFlight).(shouldClose := false, open := true, inFlight := s.inFlight + 1, from := Some(t))
    case PeerCloses(t) => s.(open := false)
    case Finish(t, closeConnection) =>
      var left := if s.inFlight > 0 then s.inFlight - 1 else 0;
      WithTop(s, t, Returned).(inFlight := left, from := if left == 0 then None else s.from,
                               open := s.open && !s.shouldClose && !closeConnection)
    case Retry(t) => WithTop(s, t, Entered)
    case Return(t) =>
      var stack := Stack(s, t);
      s.(stacks := s.stacks[t := stack[..|stack| - 1]], depth := if s.depth > 0 then s.depth - 1 else 0,
         owner := if s.depth <= 1 then None else s.owner)
    case Stop(t) =>
      if s.inFlight > 0 then s.(shouldClose := true) else s.(open := false)
  }

  // ----- the asserts in the code -----

  /** The assert in close_socket and shutdown_ssl, run by thread `t`. */
  predicate MayClose(s: Client, t: Thread) {
    s.inFlight == 0 || s.from == Some(t)
  }

  /** All asserts that a step runs through, and that the in-flight count does not go below zero. */
  predicate AssertsHold(s: Client, step: Step) {
    match step
    case Begin(t, alive, connected) =>
      && (s.open && !alive ==> MayClose(s, t))
      && ((s.open && alive) || connected ==> s.inFlight > 1 ==> s.from == Some(t))
    case PeerCloses(t) => MayClose(s, t)
    case Finish(t, closeConnection) =>
      && s.inFlight > 0
      && (s.shouldClose || closeConnection ==> s.inFlight == 1 || s.from == Some(t))
    case Return(t) => s.depth > 0 && s.owner == Some(t)
    case Stop(t) => s.inFlight == 0 ==> MayClose(s, t)
    case _ => true
  }

  // ----- what every step keeps -----

  function Flying(stack: seq<Frame>): nat {
    if stack == [] then 0 else Flying(stack[..|stack| - 1]) + if stack[|stack| - 1].InFlight? then 1 else 0
  }

  ghost predicate Nested(stack: seq<Frame>) {
    forall i :: 0 <= i < |stack| - 1 ==> stack[i].InFlight?
  }

  ghost predicate Inv(s: Client) {
    // whoever is inside send holds the request mutex, as often as he is inside
    && (forall t :: Stack(s, t) != [] ==> s.owner == Some(t))
    && (s.owner.None? ==> s.depth == 0)
    && (s.owner.Some? ==> s.depth == |Stack(s, s.owner.value)| > 0 && Nested(Stack(s, s.owner.value)))
    // the counters describe the owner's requests
    && s.inFlight == (if s.owner.Some? then Flying(Stack(s, s.owner.value)) else 0)
    && s.from == (if s.inFlight > 0 then s.owner else None)
  }

  lemma FlyingTop(stack: seq<Frame>, f: Frame)
    requires stack != []
    ensures var top := stack[|stack| - 1];
      Flying(stack[|stack| - 1 := f]) + (if top.InFlight? then 1 else 0) == Flying(stack) + if f.InFlight? then 1 else 0
    ensures Flying(stack[..|stack| - 1]) + (if stack[|stack| - 1].InFlight? then 1 else 0) == Flying(stack)
  {
    assert stack[|stack| - 1 := f][..|stack| - 1] == stack[..|stack| - 1];
  }

  lemma {:induction false} FlyingPush(stack: seq<Frame>, f: Frame)
    ensures Flying(stack + [f]) == Flying(stack) + if f.InFlight? then 1 else 0
  {
    assert (stack + [f])[..|stack|] == stack;
  }

  lemma StepAsserts(s: Client, step: Step)
    requires Inv(s) && Enabled(s, step)
    ensures AssertsHold(s, step)
  {
    if step.Finish? { FlyingTop(Stack(s, step.thread), Returned); }
  }

  lemma SendKeeps(s: Client, t: Thread)
    requires Inv(s) && Enabled(s, Send(t))
    ensures Inv(Apply(s, Send(t)))
  {
    hide Flying;
    FlyingPush(Stack(s, t), Entered);
    FlyingNone();
  }

  lemma TopKeeps(s: Client, step: Step)
    requires Inv(s) && Enabled(s, step) && (step.Begin? || step.Finish? || step.Retry?)
    ensures Inv(Apply(s, step))
  {
    hide Flying;
    FlyingTop(Stack(s, step.thread), InFlight);
    FlyingTop(Stack(s, step.thread), Returned);
    FlyingTop(Stack(s, step.thread), Entered);
  }

  lemma ReturnKeeps(s: Client, t: Thread)
    requires Inv(s) && Enabled(s, Return(t))
    ensures Inv(Apply(s, Return(t)))
  {
    hide Flying;
    FlyingTop(Stack(s, t), Returned);
    FlyingNone();
  }

  lemma StepKeeps(s: Client, step: Step)
    requires Inv(s) && Enabled(s, step)
    ensures Inv(Apply(s, step))
  {
    match step
    case Send(t) => SendKeeps(s, t);
    case Return(t) => ReturnKeeps(s, t);
    case PeerCloses(_) =>
    case Stop(_) =>
    case _ => TopKeeps(s, step);
  }

  lemma FlyingNone()
    ensures Flying([]) == 0
  {
  }

  ghost predicate Leads(s: Client, steps: seq<Step>, t: Client)
    decreases |steps|
  {
    if steps == [] then s == t
    else Enabled(s, steps[0]) && Leads(Apply(s, steps[0]), steps[1..], t)
  }

  lemma {:induction false} RunKeeps(s: Client, steps: seq<Step>, t: Client)
    requires Inv(s) && Leads(s, steps, t)
    ensures Inv(t)
    decreases |steps|
  {
    if steps != [] {
      StepKeeps(s, steps[0]);
      RunKeeps(Apply(s, steps[0]), steps[1..], t);
    }
  }

  // ----- what that means for every interleaving -----

  /** No assert fails, whatever the threads do. */
  lemma {:induction false} AssertsNeverFail(steps: seq<Step>, s: Client, step: Step)
    requires Leads(INIT, steps, s) && Enabled(s, step)
    ensures AssertsHold(s, step)
  {
    RunKeeps(INIT, steps, s);
    StepAsserts(s, step);
  }

  /** Requests in flight all belong to the one recorded thread, and that thread holds the request mutex. */
  lemma {:induction false} InFlightIsOwned(steps: seq<Step>, s: Client)
    requires Leads(INIT, steps, s) && s.inFlight > 0
    ensures s.from.Some? && s.owner == s.from && s.inFlight == Flying(Stack(s, s.from.value))
    ensures forall u :: u != s.from.value ==> Stack(s, u) == []
  {
    RunKeeps(INIT, steps, s);
  }

  /** The socket is never closed while another thread has a request in flight. */
  lemma {:induction false} NobodyElseIsUsingIt(steps: seq<Step>, s: Client, step: Step)
    requires Leads(INIT, steps, s) && Enabled(s, step) && Closes(s, step)
    ensures forall u :: u != step.thread ==> Flying(Stack(s, u)) == 0
  {
    hide Flying;
    RunKeeps(INIT, steps, s);
    StepAsserts(s, step);
    FlyingNone();
    forall u | u != step.thread ensures Flying(Stack(s, u)) == 0 {
      if s.inFlight == 0 && Stack(s, u) != [] {
        assert s.owner == Some(u);
      }
    }
  }

  /** When every send has returned, nothing is left in flight and the request mutex is free. */
  lemma {:induction false} AllReturned(steps: seq<Step>, s: Client)
    requires Leads(INIT, steps, s) && forall t :: Stack(s, t) == []
    ensures s.inFlight == 0 && s.from == None && s.owner == None && s.depth == 0
  {
    RunKeeps(INIT, steps, s);
  }

  // ----- what closes the socket, and what stop does -----

  /** The socket is lost by closing steps and no others; a send has one exactly when it could reuse or connect it. */
  lemma OpenExactly(s: Client, step: Step)
    requires Enabled(s, step)
    ensures Closes(s, step) && !step.Begin? ==> !Apply(s, step).open
    ensures s.open && !Apply(s, step).open ==> Closes(s, step)
    ensures !s.open && Apply(s, step).open ==> step.Begin? && step.connected
    ensures step.Begin? ==> (Apply(s, step).open <==> (s.open && step.alive) || step.connected)
    ensures step.Begin? ==> (TopIs(Apply(s, step), step.thread, InFlight) <==> Apply(s, step).open)
  {
  }

  ghost predicate NoBegin(steps: seq<Step>) {
    forall i :: 0 <= i < |steps| ==> !steps[i].Begin?
  }

  lemma NoBeginMore(steps: seq<Step>, step: Step)
    ensures NoBegin(steps + [step]) <==> NoBegin(steps) && !step.Begin?
  {
    var all := steps + [step];
    assert all[|steps|] == step;
    if NoBegin(all) {
      forall i | 0 <= i < |steps| ensures !steps[i].Begin? {
        assert all[i] == steps[i];
      }
    }
  }

  /** Without a Begin in between, a socket that is closed stays closed, and one that is to be closed stays so. */
  lemma {:induction false} StaysStopped(s: Client, steps: seq<Step>, t: Client)
    requires Leads(s, steps, t) && NoBegin(steps)
    ensures !s.open ==> !t.open
    ensures s.shouldClose ==> t.shouldClose
    decreases |steps|
  {
    if steps != [] {
      assert !steps[0].Begin?;
      StaysStopped(Apply(s, steps[0]), steps[1..], t);
    }
  }

  /**
   What stop achieves, in every interleaving.  With no request in flight the socket is closed at once and stays closed
   until somebody connects again.  With requests in flight it is marked, and unless another send begins first, the next
   request to finish closes it.
   */
  lemma {:induction false} StopCloses(steps: seq<Step>, s: Client, t: Thread, more: seq<Step>, u: Client)
    requires Leads(INIT, steps, s) && Leads(Apply(s, Stop(t)), more, u) && NoBegin(more)
    ensures s.inFlight == 0 ==> !u.open
    ensures s.inFlight > 0 ==>
      forall v, closeConnection :: Enabled(u, Finish(v, closeConnection)) ==>
        Closes(u, Finish(v, closeConnection)) && !Apply(u, Finish(v, closeConnection)).open
  {
    StaysStopped(Apply(s, Stop(t)), more, u);
  }

  /** `steps` hold a stop while a request was in flight, and no send has begun since. */
  ghost predicate IsStopped(steps: seq<Step>) {
    exists k: nat, s, t :: StopsInFlight(steps, k, s, t)
  }

  ghost predicate StopsInFlight(steps: seq<Step>, k: nat, s: Client, t: Thread) {
    && k < |steps| && steps[k] == Stop(t) && Leads(INIT, steps[..k], s) && s.inFlight > 0
    && NoBegin(steps[k + 1..])
  }

  lemma {:induction false} LeadsSplit(r: Client, a: seq<Step>, b: seq<Step>, t: Client) returns (s: Client)
    requires Leads(r, a + b, t)
    ensures Leads(r, a, s) && Leads(s, b, t)
    decreases |a|
  {
    if a == [] {
      assert a + b == b;
      s := r;
    } else {
      assert (a + b)[1..] == a[1..] + b;
      s := LeadsSplit(Apply(r, a[0]), a[1..], b, t);
    }
  }

  /** The mark says exactly that. */
  lemma {:induction false} MarkedExactly(steps: seq<Step>, s: Client)
    requires Leads(INIT, steps, s)
    ensures s.shouldClose <==> IsStopped(steps)
    decreases |steps|
  {
    if steps != [] {
      var n := |steps| - 1;
      var (before, step) := (steps[..n], steps[n]);
      assert before + [step] == steps;
      var r := LeadsSplit(INIT, before, [step], s);
      assert [step][1..] == [] && s == Apply(r, step);
      MarkedExactly(before, r);
      StoppedMore(before, step, r);
    }
  }

  lemma {:induction false} StoppedMore(steps: seq<Step>, step: Step, r: Client)
    requires Leads(INIT, steps, r)
    ensures IsStopped(steps + [step]) <==>
      !step.Begin? && (IsStopped(steps) || (step.Stop? && r.inFlight > 0))
  {
    hide IsStopped, Leads;
    if !step.Begin? && (IsStopped(steps) || (step.Stop? && r.inFlight > 0)) { StoppedStill(steps, step, r); }
    if IsStopped(steps + [step]) { StoppedBefore(steps, step, r); }
  }

  lemma {:induction false} StoppedStill(steps: seq<Step>, step: Step, r: Client)
    requires Leads(INIT, steps, r) && !step.Begin? && (IsStopped(steps) || (step.Stop? && r.inFlight > 0))
    ensures IsStopped(steps + [step])
  {
    hide Leads, NoBegin, Apply;
    var all := steps + [step];
    if k: nat, s, t :| StopsInFlight(steps, k, s, t) {
      assert all[..k] == steps[..k] && all[k + 1..] == steps[k + 1..] + [step];
      NoBeginMore(steps[k + 1..], step);
      assert StopsInFlight(all, k, s, t);
    } else {
      var n := |steps|;
      assert all[..n] == steps && all[n + 1..] == [];
      NothingBegins();
      assert StopsInFlight(all, n, r, step.thread);
    }
  }

  lemma {:induction false} StoppedBefore(steps: seq<Step>, step: Step, r: Client)
    requires Leads(INIT, steps, r) && IsStopped(steps + [step])
    ensures !step.Begin? && (IsStopped(steps) || (step.Stop? && r.inFlight > 0))
  {
    hide Leads, NoBegin, Apply;
    var (all, n) := (steps + [step], |steps|);
    var k: nat, s, t :| StopsInFlight(all, k, s, t);
    if k == n {
      assert all[..n] == steps;
      LeadsUnique(INIT, steps, r, s);
    } else {
      assert all[..k] == steps[..k] && all[k + 1..] == steps[k + 1..] + [step];
      NoBeginMore(steps[k + 1..], step);
      assert StopsInFlight(steps, k, s, t);
    }
  }

  lemma NothingBegins()
    ensures NoBegin([])
  {
  }

  lemma {:induction false} LeadsUnique(r: Client, steps: seq<Step>, s: Client, t: Client)
    requires Leads(r, steps, s) && Leads(r, steps, t)
    ensures s == t
    decreases |steps|
  {
    if steps != [] { LeadsUnique(Apply(r, steps[0]), steps[1..], s, t); }
  }

  // ----- no deadlock -----

  /** A step towards the end of a send: no new one, and no second try. */
  predicate IsEnding(step: Step) {
    step.Begin? || step.Finish? || step.Return?
  }

  /** How many such steps the sends in progress still need. */
  function Left(s: Client): nat
    requires Inv(s)
  {
    if s.owner.None? then 0 else
      match Stack(s, s.owner.value)[s.depth - 1]
      case Entered => 3 * s.depth
      case InFlight => 3 * s.depth - 1
      case Returned => 3 * s.depth - 2
  }

  /** The thread inside send can always make such a step, and then needs fewer. */
  lemma EndingStep(s: Client) returns (step: Step)
    requires Inv(s) && s.owner.Some?
    ensures IsEnding(step) && step.thread == s.owner.value && Enabled(s, step)
    ensures Inv(Apply(s, step)) && Left(Apply(s, step)) < Left(s)
  {
    var t := s.owner.value;
    step := match Stack(s, t)[s.depth - 1]
      case Entered => Begin(t, true, true)
      case InFlight => Finish(t, false)
      case Returned => Return(t);
    StepKeeps(s, step);
  }

  lemma {:induction false} Unwinds(s: Client) returns (steps: seq<Step>, t: Client)
    requires Inv(s)
    ensures Leads(s, steps, t) && t.owner.None? && |steps| <= Left(s)
    ensures forall i :: 0 <= i < |steps| ==> IsEnding(steps[i])
    decreases Left(s)
  {
    if s.owner.None? {
      steps, t := [], s;
    } else {
      hide Inv, Apply, Enabled, Left;
      var step := EndingStep(s);
      var more;
      more, t := Unwinds(Apply(s, step));
      steps := [step] + more;
      assert steps[1..] == more;
    }
  }

  /**
   No deadlock: from wherever the threads have got to, the thread inside send can finish all its sends on its own,
   in at most three steps each, and then every thread can send.
   */
  lemma NeverDeadlocks(steps: seq<Step>, s: Client) returns (more: seq<Step>, t: Client)
    requires Leads(INIT, steps, s)
    ensures Leads(s, more, t) && |more| <= 3 * s.depth && forall i :: 0 <= i < |more| ==> IsEnding(more[i])
    ensures forall u :: Enabled(t, Send(u))
  {
    RunKeeps(INIT, steps, s);
    more, t := Unwinds(s);
    RunKeeps(s, more, t);
  }
}
