/** The `Daemon` object of src/daemon.cpp. Its methods work on the field `activeLeases` and the socket's
    queue step by step as the source does; `Valid` ties the object to the run of events it and its
    predecessors have been through, so that what is proved about runs holds of it. */
module DaemonObject {
  import opened Wrappers
  import opened Bytes
  import opened Options
  import opened DhcpDatagram
  import opened SubnetConfig
  import opened Leases
  import opened Handlers
  import opened LeaseText
  import opened LeaseFile
  import opened Runs
  import opened Invisibility
  import opened Wire
  import SendQueue

  /** How a handler ends: normally, or with one of the exceptions of the standard library.
      `Undefined` is the option parser reading behind the end of the buffer. */
  datatype Status = Finished | InvalidArgument | OutOfRange | Undefined

  function StatusOf(o: Outcome): Status {
    match o
    case Rejected => InvalidArgument
    case Crashed => OutOfRange
    case _ => Finished
  }

  class Daemon {
    const netconfig: Config
    const socket: SendQueue.Socket<Datagram>
    var activeLeases: Table

    /** The table the run began with, its events since then including restarts, and the replies
        that the predecessors of this object handed to their sockets. */
    ghost var initial: Table
    ghost var events: seq<Event>
    ghost var earlier: seq<Datagram>

    /** The object is where its run has taken it, and all replies of the run were handed in. */
    ghost predicate Valid()
      reads this, socket
    {
      && socket.Valid()
      && activeLeases == Final(AsWritten, netconfig, initial, events)
      && AllReplies() == RunReplies(AsWritten, netconfig, initial, events)
    }

    /** Every reply handed to a socket in this run, oldest first. */
    ghost function AllReplies(): seq<Datagram>
      reads this, socket
    {
      earlier + socket.enqueued
    }

    /** One more event with the given effect has happened, and its reply is queued. */
    twostate predicate Advanced(e: Event)
      reads this, socket
    {
      var effect := Step(AsWritten, netconfig, old(activeLeases), e);
      && initial == old(initial) && earlier == old(earlier)
      && events == old(events) + [e]
      && activeLeases == effect.table
      && socket.Valid()
      && socket.enqueued == old(socket.enqueued) + Sent(effect.outcome)
      && socket.sendQueue == old(socket.sendQueue) + Sent(effect.outcome)
      && socket.settled == old(socket.settled)
    }

    constructor (netconfig: Config)
      ensures Valid() && fresh(socket) && this.netconfig == netconfig
      ensures activeLeases == map[] && socket.sendQueue == [] && socket.enqueued == []
      ensures initial == map[] && events == [] && earlier == []
    {
      this.netconfig := netconfig;
      socket := new SendQueue.Socket();
      activeLeases := map[];
      initial, events, earlier := map[], [], [];
    }

    twostate lemma AdvancedStaysValid(e: Event)
      requires old(Valid()) && Advanced(e)
      ensures Valid()
    {
      RunRepliesGrow(AsWritten, netconfig, initial, old(events), e);
    }

    /** A daemon that has been restarted any number of times has given the replies of one that was never
        stopped, datagram for datagram. */
    lemma RepliesAsIfNeverStopped(begin: uint64)
      requires Valid() && Timed(events, begin)
      ensures AllReplies() == RunReplies(AsWritten, netconfig, initial, Messages(events))
    {
      RestartsAreInvisible(AsWritten, netconfig, initial, events, begin);
    }

    /** What was handed in is what was settled, in order, followed by what waits: conservation from the
        handlers through the queue. */
    lemma RepliesReachTheQueue()
      requires Valid()
      ensures earlier + SendQueue.Datagrams(socket.settled) + socket.sendQueue
              == RunReplies(AsWritten, netconfig, initial, events)
    {
      var settled, waiting := SendQueue.Datagrams(socket.settled), socket.sendQueue;
      assert earlier + settled + waiting == earlier + (settled + waiting);
    }

    /** `update_leases`: walks the map in key order and erases expired entries on the way. */
    method UpdateLeases(now: uint64)
      modifies this`activeLeases
      ensures activeLeases == Purge(old(activeLeases), now)
    {
      var rest := activeLeases.Keys;
      while rest != {}
        invariant rest <= activeLeases.Keys <= old(activeLeases).Keys
        invariant forall k :: k in activeLeases ==> activeLeases[k] == old(activeLeases)[k]
        invariant forall k :: k in old(activeLeases) ==>
                    (k in activeLeases <==> k in rest || old(activeLeases)[k].expiry > now)
        decreases |rest|
      {
        var k := Least(rest);
        rest := rest - {k};
        if activeLeases[k].expiry <= now {
          activeLeases := activeLeases - {k};
        }
      }
    }

    /** `set_requested_options`: fills in the configured values one requested tag at a time. */
    method SetRequestedOptions(request: OptionMap, reply: OptionMap) returns (filled: OptionMap)
      ensures filled == SetRequested(netconfig.definedOptions, request, reply)
    {
      filled := reply;
      if PARAMETER_REQUEST_LIST !in request {
        return;
      }
      var list := request[PARAMETER_REQUEST_LIST];
      for i := 0 to |list|
        invariant filled == reply + Wanted(netconfig.definedOptions, list[..i], reply)
      {
        WantedGrows(netconfig.definedOptions, list, i, reply);
        if list[i] !in netconfig.definedOptions || list[i] in filled {
          continue;
        }
        filled := filled[list[i] := netconfig.definedOptions[list[i]]];
      }
      assert list[..|list|] == list;
    }

    /** The loop over the lease table in `handle_discovery`, with the fixed hosts beside it. */
    method PickAddress(d: Datagram) returns (choice: Choice)
      ensures choice == Pick(AsWritten, netconfig, activeLeases, d)
    {
      if EtherOf(d) in netconfig.fixedHosts {
        choice := Offer(netconfig.fixedHosts[EtherOf(d)], None);
      } else {
        var found := ScanLoop(activeLeases, netconfig.rangeStart, netconfig.rangeEnd);
        choice := if found.Some? then Offer(found.value, None) else NoFreeAddress;
      }
    }

    method HandleDiscovery(d: Datagram, c: Clock) returns (status: Status)
      requires Is(d, DHCP_TYPE_DISCOVER) && socket.Valid()
      modifies this, socket
      ensures Advanced(Message(d, c))
      ensures status == StatusOf(Handle(AsWritten, netconfig, old(activeLeases), d, c).outcome)
    {
      events := events + [Message(d, c)];
      var choice := ChooseAddress(d, c);
      match choice
      case NoFreeAddress => status := Finished;
      case BadRequestedAddress => status := InvalidArgument;
      case NoLeaseToReport => status := OutOfRange;
      case Offer(address, remaining) =>
        var options := BuildOffer(d, remaining);
        activeLeases := activeLeases[d.hwAddr := Lease(address, Later(c.stamp, OFFER_SECONDS))];
        socket.EnqueueDatagram(Skeleton(d).(assignedIp := address, options := options));
        status := Finished;
    }

    /** The first half of `handle_discovery`, which figures out what address the client can have. */
    method ChooseAddress(d: Datagram, c: Clock) returns (choice: Choice)
      modifies this`activeLeases
      ensures activeLeases == Purge(old(activeLeases), c.purge)
      ensures choice == Choose(AsWritten, netconfig, activeLeases, d, c.left)
    {
      var offerAddress := d.clientIp;
      var remaining: Option<uint32> := None;
      UpdateLeases(c.purge);
      if REQUESTED_IP_ADDRESS in d.options {
        var number := ToNumber(d.options[REQUESTED_IP_ADDRESS], 4);
        if number.None? {
          return BadRequestedAddress;
        }
        var requested := Word(d.options[REQUESTED_IP_ADDRESS], 0);
        assert d.options[REQUESTED_IP_ADDRESS][0..4] == d.options[REQUESTED_IP_ADDRESS];
        if requested >= netconfig.rangeStart && requested <= netconfig.rangeEnd {
          if d.hwAddr in activeLeases && activeLeases[d.hwAddr].address == requested {
            offerAddress := requested;
          }
        }
      } else if offerAddress != 0 {
        if d.hwAddr !in activeLeases {
          return NoLeaseToReport;
        }
        remaining := Some((activeLeases[d.hwAddr].expiry - c.left) % 0x1_0000_0000);
      }
      if offerAddress != 0 {
        return Offer(offerAddress, remaining);
      }
      choice := PickAddress(d);
    }

    method BuildOffer(d: Datagram, remaining: Option<uint32>) returns (options: OptionMap)
      ensures options == OfferOptions(netconfig, d, remaining)
    {
      options := map[];
      if remaining.Some? {
        var left := NumberToByteVector(remaining.value, 4);
        options := options[LEASE_TIME := left];
      }
      options := options[DHCP_MESSAGE_TYPE := [DHCP_TYPE_OFFER]];
      var server := NumberToByteVector(d.recvAddr, 4);
      options := options[SERVER_IDENTIFIER := server];
      assert options == OfferBase(d, remaining);
      options := SetRequestedOptions(d.options, options);
      if LEASE_TIME !in options {
        var lease := NumberToByteVector(netconfig.leaseTime, 4);
        options := options[LEASE_TIME := lease];
      }
    }

    method HandleRequest(d: Datagram, c: Clock) returns (status: Status)
      requires Is(d, DHCP_TYPE_REQUEST) && socket.Valid()
      modifies this, socket
      ensures Advanced(Message(d, c))
      ensures status == StatusOf(Handle(AsWritten, netconfig, old(activeLeases), d, c).outcome)
    {
      events := events + [Message(d, c)];
      var requested := d.clientIp;
      if REQUESTED_IP_ADDRESS in d.options {
        var number := ToNumber(d.options[REQUESTED_IP_ADDRESS], 4);
        if number.None? {
          return InvalidArgument;
        }
        assert d.options[REQUESTED_IP_ADDRESS][0..4] == d.options[REQUESTED_IP_ADDRESS];
        requested := Word(d.options[REQUESTED_IP_ADDRESS], 0);
      }
      var reply := Skeleton(d);
      if BitAnd(requested, netconfig.netmask) != BitAnd(netconfig.subnetAddress, netconfig.netmask) {
        reply := reply.(options := map[DHCP_MESSAGE_TYPE := [DHCP_TYPE_NAK]]);
        socket.EnqueueDatagram(reply);
        return Finished;
      }
      UpdateLeases(c.purge);
      if d.hwAddr in activeLeases {
        if activeLeases[d.hwAddr].address == requested {
          var options := BuildAck(d);
          reply := reply.(assignedIp := requested, options := options);
          activeLeases := activeLeases[d.hwAddr := Lease(requested, Later(c.stamp, netconfig.leaseTime))];
        } else {
          reply := reply.(options := map[DHCP_MESSAGE_TYPE := [DHCP_TYPE_NAK]]);
        }
      } else {
        reply := reply.(options := map[DHCP_MESSAGE_TYPE := [DHCP_TYPE_NAK]]);
      }
      socket.EnqueueDatagram(reply);
      status := Finished;
    }

    method BuildAck(d: Datagram) returns (options: OptionMap)
      ensures options == AckOptions(netconfig, d)
    {
      options := map[DHCP_MESSAGE_TYPE := [DHCP_TYPE_ACK]];
      options := SetRequestedOptions(d.options, options);
      var server := NumberToByteVector(d.recvAddr, 4);
      options := options[SERVER_IDENTIFIER := server];
      if LEASE_TIME !in options {
        var lease := NumberToByteVector(netconfig.leaseTime, 4);
        options := options[LEASE_TIME := lease];
      }
    }

    method HandleRelease(d: Datagram, c: Clock)
      requires Is(d, DHCP_TYPE_RELEASE) && socket.Valid()
      modifies this, socket
      ensures Advanced(Message(d, c))
      ensures activeLeases == old(activeLeases) - {d.hwAddr} && socket.sendQueue == old(socket.sendQueue)
    {
      events := events + [Message(d, c)];
      activeLeases := activeLeases - {d.hwAddr};
    }

    method HandleInform(d: Datagram, c: Clock)
      requires Is(d, DHCP_TYPE_INFORM) && socket.Valid()
      modifies this, socket
      ensures Advanced(Message(d, c))
    {
      events := events + [Message(d, c)];
      var options := SetRequestedOptions(d.options, map[]);
      options := options - {LEASE_TIME};
      socket.EnqueueDatagram(Skeleton(d).(options := options));
    }

    method HandleDecline(d: Datagram, c: Clock) returns (status: Status)
      requires Is(d, DHCP_TYPE_DECLINE) && socket.Valid()
      modifies this, socket
      ensures Advanced(Message(d, c))
      ensures status == StatusOf(Handle(AsWritten, netconfig, old(activeLeases), d, c).outcome)
    {
      events := events + [Message(d, c)];
      if REQUESTED_IP_ADDRESS !in d.options {
        return OutOfRange;
      }
      var number := ToNumber(d.options[REQUESTED_IP_ADDRESS], 4);
      if number.None? {
        return InvalidArgument;
      }
      assert d.options[REQUESTED_IP_ADDRESS][0..4] == d.options[REQUESTED_IP_ADDRESS];
      var declined := Word(d.options[REQUESTED_IP_ADDRESS], 0);
      activeLeases := activeLeases[ZERO_HWADDR := Lease(declined, UINT64_MAX)];
      status := Finished;
    }

    /** `handle_recv`: the opcode test and the dispatch on the message type. */
    method HandleRecv(d: Datagram, c: Clock) returns (status: Status)
      requires Valid()
      modifies this, socket
      ensures Valid() && Advanced(Message(d, c))
      ensures var effect := Handle(AsWritten, netconfig, old(activeLeases), d, c);
              && activeLeases == effect.table
              && socket.sendQueue == old(socket.sendQueue) + (if effect.outcome.Reply? then [effect.outcome.datagram] else [])
              && status == (match effect.outcome
                            case Rejected => InvalidArgument
                            case Crashed => OutOfRange
                            case _ => Finished)
    {
      status := Finished;
      if d.opcode != 1 {
        events := events + [Message(d, c)];
      } else if !HasType(d) {
        events := events + [Message(d, c)];
        status := OutOfRange;
      } else {
        var messageType := d.options[DHCP_MESSAGE_TYPE][0];
        if messageType == DHCP_TYPE_DISCOVER {
          status := HandleDiscovery(d, c);
        } else if messageType == DHCP_TYPE_REQUEST {
          status := HandleRequest(d, c);
        } else if messageType == DHCP_TYPE_RELEASE {
          HandleRelease(d, c);
        } else if messageType == DHCP_TYPE_INFORM {
          HandleInform(d, c);
        } else if messageType == DHCP_TYPE_DECLINE {
          status := HandleDecline(d, c);
        } else {
          events := events + [Message(d, c)];
        }
      }
      AdvancedStaysValid(Message(d, c));
    }

    /** `handle_epollin` behind `recvmsg`: decode the buffer, fill in what the socket knows, handle the
        datagram. An `invalid_argument` from the parser or a handler is caught and logged. */
    method HandleBuffer(e: Endian, buf: seq<byte>, residue: Residue, serverIp: uint32, recvAddr: uint32, c: Clock)
      returns (status: Status)
      requires Valid() && |buf| >= OPTIONS_OFFSET
      modifies this, socket
      ensures Valid()
      ensures match Receive(e, buf, residue, serverIp, recvAddr)
              case Received(d) =>
                && d.recvAddr == recvAddr && Advanced(Message(d, c))
                && status == (if Handle(AsWritten, netconfig, old(activeLeases), d, c).outcome.Crashed? then OutOfRange else Finished)
              case Invalid => unchanged(this, socket) && status == Finished
              case ReadsPastBuffer => unchanged(this, socket) && status == Undefined
    {
      var decoded := FromBuffer(e, buf, residue);
      match decoded
      case Received(d) =>
        var datagram := d;
        if datagram.serverIp == 0 {
          datagram := datagram.(serverIp := serverIp);
        }
        datagram := datagram.(recvAddr := recvAddr);
        assert Receive(e, buf, residue, serverIp, recvAddr) == Received(datagram);
        status := HandleRecv(datagram, c);
        if status == InvalidArgument {
          status := Finished;
        }
      case Invalid => status := Finished;
      case ReadsPastBuffer => status := Undefined;
    }

    /** `write_leases`: one line per live entry, in key order. */
    method WriteLeases(now: uint64) returns (text: string)
      modifies this`activeLeases
      ensures activeLeases == Purge(old(activeLeases), now)
      ensures text == FileText(activeLeases, InOrder(activeLeases.Keys))
    {
      UpdateLeases(now);
      text := PrintLeases(activeLeases);
    }

    method PrintLeases(t: Table) returns (text: string)
      ensures text == FileText(t, InOrder(t.Keys))
    {
      text := "";
      var rest := t.Keys;
      while rest != {}
        invariant rest <= t.Keys
        invariant text + FileText(t, InOrder(rest)) == FileText(t, InOrder(t.Keys))
        decreases |rest|
      {
        var k := Least(rest);
        ghost var before := text;
        var line := PrintLine(k, t[k]);
        text := text + (line + ['\n']);
        WrittenSoFar(t, before, rest, k);
        rest := rest - {k};
      }
    }

    method PrintLine(k: HwAddr, lease: Lease) returns (line: string)
      ensures line == LineText(k, lease)
    {
      line := PrintHwAddr(k);
      line := line + [DELIMITER];
      line := line + AddressText(lease.address) + [DELIMITER] + Numeral(lease.expiry, 10);
    }

    method PrintHwAddr(hw: HwAddr) returns (s: string)
      ensures s == HwText(hw)
    {
      s := "";
      for i := 0 to 16
        invariant s + HwText(hw[i..]) == HwText(hw)
      {
        HwTextRest(s, hw, i);
        s := s + (Numeral(hw[i], 16) + ":");
      }
    }

    /** `load_leases`; not finished when an address has more than sixteen octets, which throws. */
    method LoadLeases(text: string, now: uint64, residue: nat -> HwAddr) returns (finished: bool)
      modifies this`activeLeases
      ensures finished <==> LoadLines(Lines(text), 0, now, residue, old(activeLeases)).Some?
      ensures finished ==> Some(activeLeases) == LoadLines(Lines(text), 0, now, residue, old(activeLeases))
    {
      var rest, n := text, 0;
      ghost var goal := LoadLines(Lines(text), 0, now, residue, activeLeases);
      while rest != []
        invariant LoadLines(Lines(rest), n, now, residue, activeLeases) == goal
        decreases |rest|
      {
        LoadOneLine(rest, n, now, residue, activeLeases);
        var entered := LoadLine(rest[..FindFirst(rest, '\n')], now, residue(n));
        if !entered {
          return false;
        }
        rest, n := AfterLine(rest), n + 1;
      }
      finished := true;
    }

    /** The body of the loop. */
    method LoadLine(line: string, now: uint64, residue: HwAddr) returns (entered: bool)
      modifies this`activeLeases
      ensures entered <==> ApplyLine(line, now, residue, old(activeLeases)).Some?
      ensures entered ==> Some(activeLeases) == ApplyLine(line, now, residue, old(activeLeases))
    {
      entered := true;
      match ReadLine(line, now, residue)
      case Malformed =>
      case Expired =>
      case TooManyOctets => entered := false;
      case Entry(k, l) => activeLeases := activeLeases[k := l];
    }
  }

  lemma HwTextRest(s: string, hw: HwAddr, i: nat)
    requires i < 16
    ensures s + HwText(hw[i..]) == s + (Numeral(hw[i], 16) + ":") + HwText(hw[i + 1..])
  {
    assert hw[i..][1..] == hw[i + 1..];
    Regroup(s, Numeral(hw[i], 16) + ":", HwText(hw[i + 1..]));
  }

  lemma WantedGrows(defined: OptionMap, list: seq<byte>, i: nat, reply: OptionMap)
    requires i < |list|
    ensures reply + Wanted(defined, list[..i + 1], reply) ==
            var filled := reply + Wanted(defined, list[..i], reply);
            if list[i] !in defined || list[i] in filled then filled else filled[list[i] := defined[list[i]]]
  {
    assert list[..i + 1] == list[..i] + [list[i]];
    assert forall tag :: tag in list[..i + 1] <==> tag in list[..i] || tag == list[i];
  }

  lemma WrittenSoFar(t: Table, before: string, rest: set<HwAddr>, k: HwAddr)
    requires rest != {} && k == Least(rest) && rest <= t.Keys
    ensures before + (LineText(k, t[k]) + ['\n']) + FileText(t, InOrder(rest - {k})) == before + FileText(t, InOrder(rest))
  {
    var order := InOrder(rest - {k});
    FileTextCons(t, k, order);
    Regroup(before, LineText(k, t[k]) + ['\n'], FileText(t, order));
  }

  lemma FileTextCons(t: Table, k: HwAddr, order: seq<HwAddr>)
    requires k in t && forall j :: j in order ==> j in t
    ensures FileText(t, [k] + order) == LineText(k, t[k]) + ['\n'] + FileText(t, order)
  {
    assert ([k] + order)[1..] == order;
  }

  lemma Regroup(a: string, b: string, c: string)
    ensures a + b + c == a + (b + c)
  {
  }

  /** The constructor of the source: a new object reads the lease file. `None` is the uncaught
      exception over an address with more than sixteen octets. */
  method Start(netconfig: Config, text: string, now: uint64, residue: nat -> HwAddr) returns (r: Option<Daemon>)
    ensures r.Some? <==> Load(text, now, residue).Some?
    ensures r.Some? ==>
              var daemon := r.value;
              && fresh(daemon) && fresh(daemon.socket) && daemon.Valid() && daemon.netconfig == netconfig
              && Some(daemon.activeLeases) == Load(text, now, residue) && daemon.initial == daemon.activeLeases
              && daemon.events == [] && daemon.earlier == [] && daemon.socket.enqueued == [] && daemon.socket.sendQueue == []
  {
    var daemon := new Daemon(netconfig);
    var finished := daemon.LoadLeases(text, now, residue);
    if !finished {
      return None;
    }
    daemon.initial := daemon.activeLeases;
    r := Some(daemon);
  }

  /** The daemon is stopped and started again: it writes its leases, and a new object reads them. The
      new object goes on with the run of the old one; replies still queued are gone. */
  method StopAndStart(stopped: Daemon, written: uint64, loaded: uint64, residue: nat -> HwAddr) returns (restarted: Daemon)
    requires stopped.Valid()
    modifies stopped`activeLeases
    ensures fresh(restarted) && fresh(restarted.socket) && restarted.Valid()
    ensures restarted.netconfig == stopped.netconfig && restarted.initial == stopped.initial
    ensures restarted.events == stopped.events + [Restart(written, loaded)]
    ensures restarted.AllReplies() == old(stopped.AllReplies()) && restarted.socket.sendQueue == []
    ensures restarted.activeLeases == Reload(old(stopped.activeLeases), written, loaded)
  {
    ghost var before := stopped.activeLeases;
    RunRepliesGrow(AsWritten, stopped.netconfig, stopped.initial, stopped.events, Restart(written, loaded));
    FileRoundTrip(before, written, loaded, InOrder(Purge(before, written).Keys), residue);
    var text := stopped.WriteLeases(written);
    var started := Start(stopped.netconfig, text, loaded, residue);
    restarted := started.value;
    restarted.initial := stopped.initial;
    restarted.events := stopped.events + [Restart(written, loaded)];
    restarted.earlier := stopped.AllReplies();
  }

  /** A datagram that reaches the daemon after a restart is answered as the old object would have answered
      it, had it not been stopped. */
  method AnswerAfterRestart(
    stopped: Daemon, written: uint64, loaded: uint64, residue: nat -> HwAddr, d: Datagram, c: Clock)
    returns (restarted: Daemon, status: Status)
    requires stopped.Valid() && written <= loaded <= c.purge
    modifies stopped`activeLeases
    ensures fresh(restarted) && restarted.Valid()
    ensures var undisturbed := Handle(AsWritten, stopped.netconfig, old(stopped.activeLeases), d, c);
            && restarted.AllReplies() == old(stopped.AllReplies()) + Sent(undisturbed.outcome)
            && restarted.socket.sendQueue == Sent(undisturbed.outcome)
            && status == StatusOf(undisturbed.outcome)
            && Agree(restarted.activeLeases, undisturbed.table, c.purge)
  {
    ghost var before := stopped.activeLeases;
    restarted := StopAndStart(stopped, written, loaded, residue);
    RestartAgrees(before, written, loaded);
    AgreeLater(restarted.activeLeases, before, loaded, c.purge);
    HandleAgrees(AsWritten, restarted.netconfig, restarted.activeLeases, before, d, c);
    ghost var replies, queued := restarted.earlier, restarted.socket.enqueued;
    status := restarted.HandleRecv(d, c);
    assert restarted.AllReplies() == (replies + queued) + Sent(Handle(AsWritten, stopped.netconfig, before, d, c).outcome);
  }
}
