/** The poll loop and the daemon together: `handle_epollin` takes a datagram off the socket and the
    daemon's answer to it is what enters the send queue. */
module Server {
  import opened Bytes
  import opened Options
  import opened DhcpDatagram
  import opened SubnetConfig
  import opened Leases
  import opened Handlers
  import opened Runs
  import opened Justification
  import opened Promises
  import SendQueue
  import PollLoop

  /** A received buffer, as the parser decodes it. */
  type Arrival = Decoded

  type Loop = PollLoop.State<Arrival, Datagram>
  type Action = PollLoop.Action<Arrival, Datagram>

  /** `now` is the last clock reading; `arrived` and `taken` are the buffers that came in and those
      received so far, `handled` the datagrams among them with the readings of their handlers. */
  datatype State = State(
    loop: Loop, leases: Table, now: uint64, arrived: seq<Arrival>, taken: seq<Arrival>, handled: seq<Event>)

  predicate Takes(a: Action) {
    a.Receive? || a.HandlerThrows?
  }

  /** The daemon's answer to a buffer. A parser error is logged and changes nothing. Where the parser
      reads behind the buffer everything is undefined, and the run ends as over a crash. */
  function Answer(cfg: Config, t: Table, first: Arrival, c: Clock): Effect {
    match first
    case Received(d) => Handle(AsWritten, cfg, t, d, c)
    case Invalid => Effect(t, Silent)
    case ReadsPastBuffer => Effect(t, Crashed)
  }

  /** The loop can take the step, a received datagram is answered as the daemon answers it, and the
      clock does not go back. */
  predicate Enabled(cfg: Config, s: State, a: Action, c: Clock) {
    && PollLoop.Enabled(s.loop, a)
    && (Takes(a) ==>
          var first := s.loop.inbox[0];
          var outcome := Answer(cfg, s.leases, first, c).outcome;
          && ClockGoesOn(s.now, first, c)
          && (a.HandlerThrows? <==> outcome.Crashed?)
          && (a.Receive? ==> Sent(outcome) == if a.reply.Some? then [a.reply.value] else []))
  }

  predicate ClockGoesOn(now: uint64, first: Arrival, c: Clock) {
    first.Received? ==> now <= c.purge && c.Ordered()
  }

  function EventsOf(first: Arrival, c: Clock): seq<Event> {
    if first.Received? then [Message(first.datagram, c)] else []
  }

  function TimeAfter(now: uint64, first: Arrival, c: Clock): uint64 {
    if first.Received? then c.stamp else now
  }

  function Apply(cfg: Config, s: State, a: Action, c: Clock): State
    requires Enabled(cfg, s, a, c)
  {
    var loop := PollLoop.Apply(s.loop, a);
    if Takes(a) then
      var first := s.loop.inbox[0];
      State(loop, Answer(cfg, s.leases, first, c).table, TimeAfter(s.now, first, c),
            s.arrived, s.taken + [first], s.handled + EventsOf(first, c))
    else if a.Arrive? then s.(loop := loop, arrived := s.arrived + [a.arrival])
    else s.(loop := loop)
  }

  datatype Move = Move(action: Action, c: Clock)

  ghost predicate IsRun(cfg: Config, s: State, moves: seq<Move>, t: State)
    decreases |moves|
  {
    if moves == [] then s == t
    else
      && Enabled(cfg, s, moves[0].action, moves[0].c)
      && IsRun(cfg, Apply(cfg, s, moves[0].action, moves[0].c), moves[1..], t)
  }

  /** A daemon that has loaded `table` at time `begin` and not handled anything yet. */
  ghost predicate Init(s: State, table: Table, begin: uint64) {
    && PollLoop.Init(s.loop) && s.leases == table && s.now == begin
    && s.arrived == s.loop.inbox && s.taken == [] && s.handled == []
  }

  ghost predicate Reachable(cfg: Config, table: Table, begin: uint64, t: State) {
    exists s, moves :: Init(s, table, begin) && IsRun(cfg, s, moves, t)
  }

  /** The datagrams among received buffers. */
  function Requests(taken: seq<Arrival>): seq<Datagram> {
    if taken == [] then []
    else
      var n := |taken| - 1;
      Requests(taken[..n]) + if taken[n].Received? then [taken[n].datagram] else []
  }

  /** The datagrams handled, leaving out the clock. */
  function Handled(es: seq<Event>): seq<Datagram> {
    if es == [] then []
    else
      var n := |es| - 1;
      Handled(es[..n]) + if es[n].Message? then [es[n].d] else []
  }

  /** What was handled is what was received, in order and in time, and its replies were enqueued. */
  ghost predicate History(
    cfg: Config, table: Table, begin: uint64,
    taken: seq<Arrival>, handled: seq<Event>, now: uint64, leases: Table, enqueued: seq<Datagram>)
  {
    && Handled(handled) == Requests(taken)
    && Timed(handled, begin) && LastTime(handled, begin) == now
    && leases == Final(AsWritten, cfg, table, handled)
    && enqueued == RunReplies(AsWritten, cfg, table, handled)
  }

  lemma HistoryGrows(
    cfg: Config, table: Table, begin: uint64,
    taken: seq<Arrival>, handled: seq<Event>, now: uint64, leases: Table, enqueued: seq<Datagram>,
    first: Arrival, c: Clock)
    requires History(cfg, table, begin, taken, handled, now, leases, enqueued) && ClockGoesOn(now, first, c)
    ensures var answer := Answer(cfg, leases, first, c);
            History(cfg, table, begin, taken + [first], handled + EventsOf(first, c), TimeAfter(now, first, c),
                    answer.table, enqueued + Sent(answer.outcome))
  {
    assert (taken + [first])[..|taken|] == taken;
    match first
    case Received(d) =>
      var e := Message(d, c);
      assert (handled + [e])[..|handled|] == handled;
      RunRepliesGrow(AsWritten, cfg, table, handled, e);
    case _ =>
      assert handled + [] == handled;
      assert enqueued + [] == enqueued;
  }

  ghost predicate Inv(cfg: Config, table: Table, begin: uint64, s: State) {
    && PollLoop.Inv(s.loop)
    && s.arrived == s.taken + s.loop.inbox
    && History(cfg, table, begin, s.taken, s.handled, s.now, s.leases, s.loop.enqueued)
  }

  /** What taking a buffer does to the loop's own variables. */
  lemma LoopTakes(s: Loop, a: Action)
    requires PollLoop.Enabled(s, a) && Takes(a)
    ensures s.inbox != [] && PollLoop.Apply(s, a).inbox == s.inbox[1..]
    ensures PollLoop.Apply(s, a).enqueued ==
            s.enqueued + if a.Receive? && a.reply.Some? then [a.reply.value] else []
  {
    match a
    case Receive(_) =>
    case HandlerThrows =>
  }

  lemma LoopKeepsInbox(s: Loop, a: Action)
    requires PollLoop.Enabled(s, a) && !Takes(a)
    ensures PollLoop.Apply(s, a).inbox == if a.Arrive? then s.inbox + [a.arrival] else s.inbox
    ensures PollLoop.Apply(s, a).enqueued == s.enqueued
  {
    match a
    case TrySend(_) =>
    case Report(_, _) =>
    case Arrive(_) =>
    case _ =>
  }

  lemma FrontMoves<T>(arrived: seq<T>, taken: seq<T>, inbox: seq<T>)
    requires arrived == taken + inbox && inbox != []
    ensures arrived == taken + [inbox[0]] + inbox[1..]
  {
  }

  lemma StepInv(cfg: Config, table: Table, begin: uint64, s: State, a: Action, c: Clock)
    requires Inv(cfg, table, begin, s) && Enabled(cfg, s, a, c)
    ensures Inv(cfg, table, begin, Apply(cfg, s, a, c))
  {
    PollLoop.StepInv(s.loop, a);
    if Takes(a) {
      LoopTakes(s.loop, a);
      FrontMoves(s.arrived, s.taken, s.loop.inbox);
      HistoryGrows(cfg, table, begin, s.taken, s.handled, s.now, s.leases, s.loop.enqueued, s.loop.inbox[0], c);
    } else {
      LoopKeepsInbox(s.loop, a);
    }
  }

  lemma {:induction false} RunInv(cfg: Config, table: Table, begin: uint64, s: State, moves: seq<Move>, t: State)
    requires Inv(cfg, table, begin, s) && IsRun(cfg, s, moves, t)
    ensures Inv(cfg, table, begin, t)
    decreases |moves|
  {
    if moves != [] {
      StepInv(cfg, table, begin, s, moves[0].action, moves[0].c);
      RunInv(cfg, table, begin, Apply(cfg, s, moves[0].action, moves[0].c), moves[1..], t);
    }
  }

  lemma ReachableInv(cfg: Config, table: Table, begin: uint64, s: State)
    requires Reachable(cfg, table, begin, s)
    ensures Inv(cfg, table, begin, s)
  {
    var first, moves :| Init(first, table, begin) && IsRun(cfg, first, moves, s);
    PollLoop.InitInv(first.loop);
    RunInv(cfg, table, begin, first, moves, s);
  }

  // ---- the main results ----

  /** In every reachable state of loop, daemon and kernel: the replies settled, followed by those in the
      queue, are exactly the daemon's replies to the datagrams received so far, which are the
      first of those that arrived, in order; and the lease table is that of the same run. */
  lemma EveryRequestIsAnsweredInOrder(cfg: Config, table: Table, begin: uint64, s: State)
    requires Reachable(cfg, table, begin, s)
    ensures SendQueue.Datagrams(s.loop.settled) + s.loop.queue == RunReplies(AsWritten, cfg, table, s.handled)
    ensures Handled(s.handled) == Requests(s.taken) && s.arrived == s.taken + s.loop.inbox
    ensures s.leases == Final(AsWritten, cfg, table, s.handled)
  {
    ReachableInv(cfg, table, begin, s);
  }

  /** When the loop sleeps and the socket can be written, every datagram that arrived has been handled
      and every reply has left the queue. */
  lemma SleepingServerHasAnsweredAll(cfg: Config, table: Table, begin: uint64, s: State)
    requires Reachable(cfg, table, begin, s) && PollLoop.Sleeps(s.loop) && s.loop.writable
    ensures Handled(s.handled) == Requests(s.arrived)
    ensures SendQueue.Datagrams(s.loop.settled) == RunReplies(AsWritten, cfg, table, s.handled)
  {
    ReachableInv(cfg, table, begin, s);
    assert s.taken + [] == s.taken;
  }

  /** Reply `r` is the ACK to datagram number `i`, and the traffic before it entitles its sender to the
      address it assigns. */
  ghost predicate JustifiesAck(cfg: Config, table: Table, es: seq<Event>, i: int, r: Datagram) {
    && 0 <= i < |es| && es[i].Message? && Is(es[i].d, DHCP_TYPE_REQUEST)
    && OutcomeAt(AsWritten, cfg, table, es, i) == Reply(r)
    && cfg.InSubnet(r.assignedIp)
    && Entitled(cfg, table, Trace(AsWritten, cfg, table, es[..i]), es[i].d.hwAddr, r.assignedIp, es[i].c.purge)
  }

  /** Every ACK the server has sent, dropped or queued, in every reachable state, is justified by the
      datagrams it had received before. No configuration defines the message type as an option. */
  lemma EveryAckIsJustified(cfg: Config, table: Table, begin: uint64, s: State, j: nat)
    requires Reachable(cfg, table, begin, s) && DHCP_MESSAGE_TYPE !in cfg.definedOptions
    requires j < |SendQueue.Datagrams(s.loop.settled) + s.loop.queue|
    ensures var r := (SendQueue.Datagrams(s.loop.settled) + s.loop.queue)[j];
            Says(Reply(r), DHCP_TYPE_ACK) ==> exists i :: JustifiesAck(cfg, table, s.handled, i, r)
  {
    ReachableInv(cfg, table, begin, s);
    var r := RunReplies(AsWritten, cfg, table, s.handled)[j];
    if Says(Reply(r), DHCP_TYPE_ACK) {
      var i := ReplyHasCause(cfg, table, s.handled, j);
      TimedPrefix(s.handled, begin, i);
      AckIsJustified(cfg, table, s.handled, begin, i, r);
    }
  }

  /** Every reply of a run answers one of its events. */
  lemma {:induction false} ReplyHasCause(cfg: Config, table: Table, es: seq<Event>, j: nat) returns (i: nat)
    requires j < |RunReplies(AsWritten, cfg, table, es)|
    ensures i < |es| && OutcomeAt(AsWritten, cfg, table, es, i) == Reply(RunReplies(AsWritten, cfg, table, es)[j])
    decreases |es|
  {
    i := 0;
    if es == [] {
      assert false;
    } else {
      var n := |es| - 1;
      assert es == es[..n] + [es[n]];
      RunRepliesGrow(AsWritten, cfg, table, es[..n], es[n]);
      if j < |RunReplies(AsWritten, cfg, table, es[..n])| {
        i := ReplyHasCause(cfg, table, es[..n], j);
        assert es[..n][..i] == es[..i];
      } else {
        i := n;
      }
    }
  }

  lemma {:induction false} TimedPrefix(es: seq<Event>, begin: uint64, i: nat)
    requires Timed(es, begin) && i < |es|
    ensures Timed(es[..i], begin) && LastTime(es[..i], begin) <= es[i].Start() && es[i].Ordered()
    decreases |es|
  {
    var n := |es| - 1;
    if i < n {
      TimedPrefix(es[..n], begin, i);
      assert es[..n][..i] == es[..i];
    }
  }

  lemma AckComesFromRequest(cfg: Config, t: Table, d: Datagram, c: Clock)
    requires DHCP_MESSAGE_TYPE !in cfg.definedOptions
    requires Says(Handle(AsWritten, cfg, t, d, c).outcome, DHCP_TYPE_ACK)
    ensures Is(d, DHCP_TYPE_REQUEST)
  {
    if Is(d, DHCP_TYPE_DISCOVER) {
      DiscoverHolds(AsWritten, cfg, t, d, c.(left := c.purge, stamp := c.purge), d.hwAddr, 0, c.purge);
    } else if Is(d, DHCP_TYPE_INFORM) {
      InformTouchesNoLease(AsWritten, cfg, t, d, c);
    }
  }

  lemma AckIsJustified(cfg: Config, table: Table, es: seq<Event>, begin: uint64, i: nat, r: Datagram)
    requires i < |es| && DHCP_MESSAGE_TYPE !in cfg.definedOptions
    requires Timed(es[..i], begin) && LastTime(es[..i], begin) <= es[i].Start()
    requires OutcomeAt(AsWritten, cfg, table, es, i) == Reply(r) && Says(Reply(r), DHCP_TYPE_ACK)
    ensures JustifiesAck(cfg, table, es, i, r)
  {
    var e := es[i];
    AckComesFromRequest(cfg, Final(AsWritten, cfg, table, es[..i]), e.d, e.c);
    AckIffJustified(AsWritten, cfg, table, es[..i], begin, e.d, e.c, r.assignedIp);
  }

  /** In every reachable state, no client's lease outlives the last clock reading by more than the
      longest lease time. */
  lemma ServerLeasesStayBounded(cfg: Config, table: Table, begin: uint64, s: State)
    requires Reachable(cfg, table, begin, s) && Bounded(cfg, table, begin)
    ensures Bounded(cfg, s.leases, s.now)
  {
    ReachableInv(cfg, table, begin, s);
    LifetimesStayBounded(AsWritten, cfg, table, s.handled, begin);
  }
}
