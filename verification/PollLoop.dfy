/** `Epoll::poll_loop` of src/epoll.hpp as a state machine that interleaves with the kernel. Every
    statement of the loop that touches shared state is a step of its own, and between any two steps
    datagrams may arrive and the socket may become writable. */
module PollLoop {
  import opened Wrappers
  import opened SendQueue

  /** Where the loop stands: at the signal test, in the drain loop, behind it with `would_block` set,
      in `epoll_wait`, handling EPOLLIN, handling EPOLLOUT, or out of the loop. */
  datatype Pc = Top | Drain | Clear | Wait | Input | Output | Left

  /** `I` is what arrives and `D` what is replied. The program's variables come first, then the kernel's:
      the received datagrams, whether the socket can be
      written, and the edges not yet reported by `epoll_wait`. `enqueued` and `settled` record what
      has entered and left the queue, `attempts` counts the `sendto` calls. */
  datatype State<I, D> = State(
    pc: Pc, ready: bool, wouldBlock: bool, gotIn: bool, gotOut: bool, queue: seq<D>,
    inbox: seq<I>, writable: bool, inEdge: bool, outEdge: bool,
    enqueued: seq<D>, settled: seq<Settled<D>>, attempts: nat)

  datatype Action<I, D> =
    // the program
    | SeeSignal | PassTop
    | TrySend(result: SendResult) | EndDrain | ClearReady
    | Interrupted | WaitFails | Report(input: bool, output: bool)
    | Receive(reply: Option<D>) | ReceiveError | HandlerThrows | EndInput | EndOutput
    // the kernel
    | Arrive(arrival: I) | BecomeWritable | LoseWritable

  /** EPOLL_CTL_ADD reports a socket that is writable from the start. */
  ghost predicate Init<I, D>(s: State<I, D>) {
    && s.pc == Top && !s.ready && !s.wouldBlock && !s.gotIn && !s.gotOut && s.queue == []
    && (s.writable ==> s.outEdge) && (s.inbox != [] ==> s.inEdge)
    && s.enqueued == [] && s.settled == []
  }

  predicate Enabled<I, D>(s: State<I, D>, a: Action<I, D>) {
    match a
    case SeeSignal => s.pc == Top
    case PassTop => s.pc == Top
    case TrySend(result) =>
      s.pc == Drain && s.queue != [] && !s.wouldBlock && (result.WouldBlock? ==> !s.writable)
    case EndDrain => s.pc == Drain && (s.queue == [] || s.wouldBlock)
    case ClearReady => s.pc == Clear
    case Interrupted => s.pc == Wait
    case WaitFails => s.pc == Wait
    // what is ready and has an unreported edge is reported; more may be
    case Report(input, output) =>
      && s.pc == Wait
      && (s.inEdge && s.inbox != [] ==> input)
      && (s.outEdge && s.writable ==> output)
    case Receive(_) => s.pc == Input && s.gotIn && s.inbox != []
    case ReceiveError => s.pc == Input && s.gotIn
    case HandlerThrows => s.pc == Input && s.gotIn && s.inbox != []
    // `handle_epollin` returns true when nothing is left to receive
    case EndInput => s.pc == Input && (!s.gotIn || s.inbox == [])
    case EndOutput => s.pc == Output
    case Arrive(_) => true
    case BecomeWritable => !s.writable
    case LoseWritable => s.writable
  }

  function Apply<I, D>(s: State<I, D>, a: Action<I, D>): State<I, D>
    requires Enabled(s, a)
  {
    match a
    case SeeSignal => s.(pc := Left)
    case PassTop => if s.ready then s.(pc := Drain, wouldBlock := false) else s.(pc := Wait)
    case TrySend(result) =>
      s.(queue := QueueAfter(s.queue, result), settled := SettledAfter(s.queue, s.settled, result),
         wouldBlock := result.WouldBlock?, attempts := s.attempts + 1)
    case EndDrain => if s.wouldBlock then s.(pc := Clear) else s.(pc := Wait)
    case ClearReady => s.(pc := Wait, ready := false)
    case Interrupted => s.(pc := Top)
    case WaitFails => s.(pc := Left)
    case Report(input, output) => s.(pc := Input, gotIn := input, gotOut := output, inEdge := false, outEdge := false)
    case Receive(reply) =>
      if reply.None? then s.(inbox := s.inbox[1..])
      else s.(inbox := s.inbox[1..], queue := s.queue + [reply.value], enqueued := s.enqueued + [reply.value])
    case ReceiveError => s
    case HandlerThrows => s.(pc := Left, inbox := s.inbox[1..])
    case EndInput => s.(pc := Output)
    case EndOutput => s.(pc := Top, ready := s.ready || s.gotOut)
    case Arrive(d) => s.(inbox := s.inbox + [d], inEdge := true)
    case BecomeWritable => s.(writable := true, outEdge := true)
    case LoseWritable => s.(writable := false)
  }

  /** The loop ends exactly over a signal seen at its head, a failure of `epoll_wait`, or an exception
      from the handler of a datagram. */
  lemma LeavesExactlyWhen<I, D>(s: State<I, D>, a: Action<I, D>)
    requires Enabled(s, a) && s.pc != Left
    ensures Apply(s, a).pc == Left <==>
              || (s.pc == Top && a.SeeSignal?)
              || (s.pc == Wait && a.WaitFails?)
              || (s.pc == Input && s.gotIn && s.inbox != [] && a.HandlerThrows?)
  {
    match a
    case TrySend(_) =>
    case Receive(_) =>
    case _ =>
  }

  /** An interrupted `epoll_wait` (EINTR) only takes the loop back to its head, with all that it knows. */
  lemma InterruptedGoesOn<I, D>(s: State<I, D>)
    requires Enabled(s, Interrupted)
    ensures Apply(s, Interrupted) == s.(pc := Top) && Enabled(Apply(s, Interrupted), PassTop)
  {
  }

  /** `actions` is a run that leads from `s` to `t`. */
  ghost predicate IsRun<I, D>(s: State<I, D>, actions: seq<Action<I, D>>, t: State<I, D>)
    decreases |actions|
  {
    if actions == [] then s == t
    else Enabled(s, actions[0]) && IsRun(Apply(s, actions[0]), actions[1..], t)
  }

  ghost predicate Reachable<I(!new), D(!new)>(t: State<I, D>) {
    exists s: State<I, D>, actions :: Init(s) && IsRun(s, actions, t)
  }

  // ---- the invariant ----

  /** The loop knows that it may send, will be told, or need not know because it could not. */
  predicate NoLostWakeup<I, D>(s: State<I, D>) {
    || s.ready || s.outEdge || !s.writable
    || ((s.pc == Input || s.pc == Output) && s.gotOut)
    || s.pc == Left
  }

  ghost predicate Inv<I, D>(s: State<I, D>) {
    Conserved(s.enqueued, s.settled, s.queue) && Control(s)
  }

  /** What the loop's position says about its flags, the queue and the kernel. */
  ghost predicate Control<I, D>(s: State<I, D>) {
    && NoLostWakeup(s)
    && ((s.pc == Drain || s.pc == Clear) ==> s.ready)
    && (s.pc == Clear ==> s.wouldBlock)
    && ((s.pc == Drain || s.pc == Clear) && s.wouldBlock ==> s.outEdge || !s.writable)
    && ((s.pc == Drain || s.pc == Clear) && s.wouldBlock ==> s.queue != [])
    && (s.pc == Wait && s.queue != [] ==> !s.ready)
    && (s.inbox != [] ==> s.inEdge || (s.pc == Input && s.gotIn) || s.pc == Left)
  }

  lemma InitInv<I, D>(s: State<I, D>)
    requires Init(s)
    ensures Inv(s)
  {
    assert Datagrams(s.settled) == [];
  }

  lemma StepConserves<I, D>(s: State<I, D>, a: Action<I, D>)
    requires Conserved(s.enqueued, s.settled, s.queue) && Enabled(s, a)
    ensures var t := Apply(s, a); Conserved(t.enqueued, t.settled, t.queue)
  {
    match a
    case TrySend(result) =>
      AttemptConserves(s.enqueued, s.settled, s.queue, result);
    case Receive(reply) =>
      if reply.Some? {
        EnqueueConserves(s.enqueued, s.settled, s.queue, reply.value);
      }
    case _ =>
  }

  lemma StepControl<I, D>(s: State<I, D>, a: Action<I, D>)
    requires Control(s) && Enabled(s, a)
    ensures Control(Apply(s, a))
  {
    match a
    case TrySend(result) => TrySendControl(s, result);
    case Receive(reply) => ReceiveControl(s, reply);
    case Arrive(arrival) => ArriveControl(s, arrival);
    case PassTop =>
    case EndDrain =>
    case ClearReady =>
    case Report(_, _) =>
    case EndInput =>
    case EndOutput =>
    case _ =>
  }

  lemma TrySendControl<I, D>(s: State<I, D>, result: SendResult)
    requires Control(s) && Enabled(s, TrySend(result))
    ensures Control(Apply(s, TrySend(result)))
  {
  }

  lemma ReceiveControl<I, D>(s: State<I, D>, reply: Option<D>)
    requires Control(s) && Enabled(s, Receive(reply))
    ensures Control(Apply(s, Receive(reply)))
  {
  }

  lemma ArriveControl<I, D>(s: State<I, D>, arrival: I)
    requires Control(s)
    ensures Control(Apply(s, Arrive(arrival)))
  {
  }

  lemma StepInv<I, D>(s: State<I, D>, a: Action<I, D>)
    requires Inv(s) && Enabled(s, a)
    ensures Inv(Apply(s, a))
  {
    StepConserves(s, a);
    StepControl(s, a);
  }

  lemma {:induction false} RunInv<I, D>(s: State<I, D>, actions: seq<Action<I, D>>, t: State<I, D>)
    requires Inv(s) && IsRun(s, actions, t)
    ensures Inv(t)
    decreases |actions|
  {
    if actions != [] {
      StepInv(s, actions[0]);
      RunInv(Apply(s, actions[0]), actions[1..], t);
    }
  }

  lemma ReachableInv<I(!new), D(!new)>(t: State<I, D>)
    requires Reachable(t)
    ensures Inv(t)
  {
    var s, actions :| Init(s) && IsRun(s, actions, t);
    InitInv(s);
    RunInv(s, actions, t);
  }

  // ---- the main results ----

  /** In every reachable state outside the event handlers, the loop is ready to send, or an edge is
      pending, or the socket is not writable; and when the loop reaches `epoll_wait` with replies
      waiting, it is not marked ready, so it is one of the other two. */
  lemma NoWakeupIsLost<I(!new), D(!new)>(s: State<I, D>)
    requires Reachable(s) && s.pc != Left
    ensures s.pc != Input && s.pc != Output ==> s.ready || s.outEdge || !s.writable
    ensures s.pc == Wait && s.queue != [] ==> !s.ready && (s.outEdge || !s.writable)
  {
    ReachableInv(s);
  }

  /** `epoll_wait` may sleep: nothing that is ready has an unreported edge. */
  predicate Sleeps<I, D>(s: State<I, D>) {
    s.pc == Wait && !(s.inEdge && s.inbox != []) && !(s.outEdge && s.writable)
  }

  /** The loop never sleeps over work: when it does sleep, every received datagram has been handled,
      and replies are waiting only while the socket cannot take them. */
  lemma NeverSleepsOverWork<I(!new), D(!new)>(s: State<I, D>)
    requires Reachable(s) && Sleeps(s)
    ensures s.inbox == [] && (s.queue == [] || !s.writable)
  {
    ReachableInv(s);
  }

  /** In every reachable state the replies handed in are those settled, in the same order, followed
      by those in the queue. */
  lemma RepliesAreConserved<I(!new), D(!new)>(s: State<I, D>)
    requires Reachable(s)
    ensures s.enqueued == Datagrams(s.settled) + s.queue
  {
    ReachableInv(s);
  }

  // ---- a reported edge is always followed by a send ----

  /** From the report of a writable socket on, a send of the waiting replies is on its way. */
  predicate SendIsComing<I, D>(s: State<I, D>) {
    && s.queue != []
    && (|| ((s.pc == Input || s.pc == Output) && s.gotOut)
        || (s.pc == Top && s.ready)
        || (s.pc == Drain && !s.wouldBlock))
  }

  lemma SendComesStep<I, D>(s: State<I, D>, a: Action<I, D>, n: nat)
    requires SendIsComing(s) && s.attempts == n && Enabled(s, a)
    ensures var t := Apply(s, a); t.attempts > n || t.pc == Left || (SendIsComing(t) && t.attempts == n)
  {
    match a
    case TrySend(_) =>
    case Receive(_) =>
    case PassTop =>
    case EndOutput =>
    case _ =>
  }

  lemma AttemptsGrow<I, D>(s: State<I, D>, a: Action<I, D>)
    requires Enabled(s, a)
    ensures Apply(s, a).attempts >= s.attempts
  {
    match a
    case TrySend(result) =>
    case _ =>
  }

  lemma LeftForGood<I, D>(s: State<I, D>, a: Action<I, D>)
    requires Enabled(s, a) && s.pc == Left
    ensures Apply(s, a).pc == Left
  {
    assert a.Arrive? || a.BecomeWritable? || a.LoseWritable?;
  }

  lemma {:induction false} SendCameOrComes<I, D>(s: State<I, D>, actions: seq<Action<I, D>>, t: State<I, D>, n: nat)
    requires IsRun(s, actions, t) && s.attempts >= n
    requires s.attempts > n || s.pc == Left || SendIsComing(s)
    ensures t.attempts > n || t.pc == Left || SendIsComing(t)
    decreases |actions|
  {
    if actions != [] {
      AttemptsGrow(s, actions[0]);
      if s.pc == Left {
        LeftForGood(s, actions[0]);
      } else if s.attempts == n {
        SendComesStep(s, actions[0], n);
      }
      SendCameOrComes(Apply(s, actions[0]), actions[1..], t, n);
    }
  }

  /** When the loop waits with replies in the queue and the socket is writable, whatever
      `epoll_wait` reports next includes EPOLLOUT, and the loop does not come back to
      `epoll_wait` without having tried to send one of the replies. */
  lemma WritableSocketGetsASend<I(!new), D(!new)>(s: State<I, D>, input: bool, output: bool, actions: seq<Action<I, D>>, t: State<I, D>)
    requires Reachable(s) && s.pc == Wait && s.queue != [] && s.writable
    requires Enabled(s, Report(input, output)) && IsRun(Apply(s, Report(input, output)), actions, t)
    ensures output && (t.pc == Wait ==> t.attempts > s.attempts)
  {
    NoWakeupIsLost(s);
    SendCameOrComes(Apply(s, Report(input, output)), actions, t, s.attempts);
  }

  // ---- each drain phase ends ----

  /** How many more sends the current drain phase can make. */
  function SendsLeft<I, D>(s: State<I, D>): nat {
    if s.pc == Drain && !s.wouldBlock then |s.queue| else 0
  }

  ghost predicate StaysDraining<I, D>(s: State<I, D>, actions: seq<Action<I, D>>)
    decreases |actions|
  {
    actions == [] ||
    (s.pc == Drain && Enabled(s, actions[0]) && StaysDraining(Apply(s, actions[0]), actions[1..]))
  }

  function SendCount<I, D>(actions: seq<Action<I, D>>): nat
    decreases |actions|
  {
    if actions == [] then 0 else (if actions[0].TrySend? then 1 else 0) + SendCount(actions[1..])
  }

  lemma DrainingUsesUpSends<I, D>(s: State<I, D>, a: Action<I, D>)
    requires s.pc == Drain && Enabled(s, a)
    ensures SendsLeft(Apply(s, a)) + (if a.TrySend? then 1 else 0) <= SendsLeft(s)
  {
    match a
    case TrySend(_) =>
    case EndDrain =>
    case _ =>
  }

  /** However the kernel interferes, one drain phase makes at most as many `sendto` calls as
      there were replies in the queue. */
  lemma {:induction false} DrainPhaseEnds<I, D>(s: State<I, D>, actions: seq<Action<I, D>>)
    requires StaysDraining(s, actions)
    ensures SendCount(actions) <= SendsLeft(s)
    decreases |actions|
  {
    if actions != [] {
      DrainingUsesUpSends(s, actions[0]);
      DrainPhaseEnds(Apply(s, actions[0]), actions[1..]);
    }
  }
}
