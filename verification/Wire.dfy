/** From the bytes of a request to the bytes of its reply: src/socket.cpp hands a decoded buffer to
    the handlers and encodes what they enqueue. */
module Wire {
  import opened Wrappers
  import opened Bytes
  import opened Options
  import opened DhcpDatagram
  import opened SubnetConfig
  import opened Leases
  import opened Handlers
  import opened Runs
  import opened Justification
  import opened Promises
  import opened Conduct
  import opened Exclusivity

  /** `handle_epollin` after `recvmsg`: the decoded datagram with the two fields the socket fills in. */
  function Receive(e: Endian, buf: seq<byte>, residue: Residue, serverIp: uint32, recvAddr: uint32): Decoded
    requires |buf| >= OPTIONS_OFFSET
  {
    match Decode(e, buf, residue)
    case Received(d) =>
      Received(d.(serverIp := if d.serverIp == 0 then serverIp else d.serverIp, recvAddr := recvAddr))
    case other => other
  }

  /** What a received datagram holds, by the offsets of section 2 of RFC 2131. The socket fills in the
      address the buffer came in on, and its own address where the buffer has zeros. */
  lemma ReceivedFields(e: Endian, buf: seq<byte>, residue: Residue, serverIp: uint32, recvAddr: uint32)
    requires |buf| >= 240 && Receive(e, buf, residue, serverIp, recvAddr).Received?
    ensures var d := Receive(e, buf, residue, serverIp, recvAddr).datagram;
            && d.opcode == buf[0] && d.hwType == buf[1] && d.hwLen == buf[2]
            && NetworkBytes(e, d.xid, 4) == buf[4..8]
            && NetworkBytes(e, d.secs, 2) == buf[8..10]
            && BigEndian(d.flags, 2) == buf[10..12]
            && BigEndian(d.clientIp, 4) == buf[12..16]
            && BigEndian(d.assignedIp, 4) == buf[16..20]
            && d.serverIp == (if buf[20..24] == [0, 0, 0, 0] then serverIp else FromBigEndian(buf[20..24]))
            && d.relayIp == residue.relayIp
            && d.hwAddr == buf[28..43] + [residue.hwTail]
            && d.recvAddr == recvAddr
            && ParseArea(buf[240..]) == Parsed(d.options)
  {
    NetworkEcho(e, buf[4..8]);
    NetworkEcho(e, buf[8..10]);
    BytesRoundTrip(buf[10..12]);
    BytesRoundTrip(buf[12..16]);
    BytesRoundTrip(buf[16..20]);
    ZeroWord(buf[20..24]);
  }

  lemma ZeroWord(s: seq<byte>)
    requires |s| == 4
    ensures FromBigEndian(s) == 0 <==> s == [0, 0, 0, 0]
  {
    ZeroSpellsZero([0, 0, 0, 0]);
    BytesRoundTrip(s);
    BytesRoundTrip([0, 0, 0, 0]);
  }

  /** A buffer is handed on exactly when its options parse, and otherwise dropped or read past. */
  lemma ReceivedExactlyWhen(e: Endian, buf: seq<byte>, residue: Residue, serverIp: uint32, recvAddr: uint32)
    requires |buf| >= 240
    ensures Receive(e, buf, residue, serverIp, recvAddr).Received? <==> ParseArea(buf[240..]).Parsed?
    ensures Receive(e, buf, residue, serverIp, recvAddr).Invalid? <==> ParseArea(buf[240..]).BadLength?
  {
  }

  lemma ReceivedOptionsAreLegal(e: Endian, buf: seq<byte>, residue: Residue, serverIp: uint32, recvAddr: uint32)
    requires |buf| >= OPTIONS_OFFSET && Receive(e, buf, residue, serverIp, recvAddr).Received?
    ensures Encodable(Receive(e, buf, residue, serverIp, recvAddr).datagram.options)
  {
    if |buf| > OPTIONS_OFFSET {
      ParsedIsEncodable(buf[OPTIONS_OFFSET..], map[]);
    }
  }

  /** A request lacks the message type, is a DECLINE without an address, or is a DISCOVER that gives a
      ciaddr, requests no address and comes from a client without a live lease. */
  predicate EndsProcess(live: Table, d: Datagram) {
    && d.opcode == 1
    && (|| DHCP_MESSAGE_TYPE !in d.options
        || (Is(d, DHCP_TYPE_DECLINE) && REQUESTED_IP_ADDRESS !in d.options)
        || (Is(d, DHCP_TYPE_DISCOVER) && REQUESTED_IP_ADDRESS !in d.options && d.clientIp != 0 && d.hwAddr !in live))
  }

  /** No datagram that came through the parser is rejected for the size of an option. It ends the
      process exactly in the three cases above. */
  lemma HandlersAreTotalExactlyWhen(
    e: Endian, buf: seq<byte>, residue: Residue, serverIp: uint32, recvAddr: uint32,
    scan: Scan, cfg: Config, t: Table, c: Clock)
    requires |buf| >= OPTIONS_OFFSET && Receive(e, buf, residue, serverIp, recvAddr).Received?
    ensures var d := Receive(e, buf, residue, serverIp, recvAddr).datagram;
            var o := Handle(scan, cfg, t, d, c).outcome;
            o != Rejected && (o == Crashed <==> EndsProcess(Purge(t, c.purge), d))
  {
    var d := Receive(e, buf, residue, serverIp, recvAddr).datagram;
    ReceivedOptionsAreLegal(e, buf, residue, serverIp, recvAddr);
    LegalOptionsDecideCrash(scan, cfg, t, d, c);
  }

  lemma LegalOptionsDecideCrash(scan: Scan, cfg: Config, t: Table, d: Datagram, c: Clock)
    requires Encodable(d.options)
    ensures var o := Handle(scan, cfg, t, d, c).outcome;
            o != Rejected && (o == Crashed <==> EndsProcess(Purge(t, c.purge), d))
  {
    assert REQUESTED_IP_ADDRESS in d.options ==> |d.options[REQUESTED_IP_ADDRESS]| == 4;
    assert DHCP_MESSAGE_TYPE in d.options ==> |d.options[DHCP_MESSAGE_TYPE]| == 1;
  }

  lemma ReplyIsSkeleton(scan: Scan, cfg: Config, t: Table, d: Datagram, c: Clock)
    requires Handle(scan, cfg, t, d, c).outcome.Reply?
    ensures var r := Handle(scan, cfg, t, d, c).outcome.datagram;
            r == Skeleton(d).(assignedIp := r.assignedIp, options := r.options)
  {
    if Is(d, DHCP_TYPE_DISCOVER) {
      assert Handle(scan, cfg, t, d, c) == Discover(scan, cfg, t, d, c);
    } else if Is(d, DHCP_TYPE_REQUEST) {
      assert Handle(scan, cfg, t, d, c) == Request(cfg, t, d, c);
    }
  }

  /** All bytes of a reply in front of its options. Whatever the request and whatever the host's byte
      order, they repeat the request's bytes for hardware type and length, transaction id, flags and the
      fifteen copied bytes of the hardware address; the assigned address and the cookie are there, and
      all the others are zero. */
  lemma ReplyEchoesRequest(
    e: Endian, buf: seq<byte>, residue: Residue, serverIp: uint32, recvAddr: uint32,
    scan: Scan, cfg: Config, t: Table, c: Clock, order: seq<Item>)
    requires |buf| >= 240 && Receive(e, buf, residue, serverIp, recvAddr).Received?
    requires Handle(scan, cfg, t, Receive(e, buf, residue, serverIp, recvAddr).datagram, c).outcome.Reply?
    ensures var d := Receive(e, buf, residue, serverIp, recvAddr).datagram;
            var r := Handle(scan, cfg, t, d, c).outcome.datagram;
            var out := Encode(e, r, order);
            && |out| > 240
            && out[0] == 2 && out[1] == buf[1] && out[2] == buf[2] && out[3] == 0
            && out[4..8] == buf[4..8] && out[8..10] == [0, 0] && out[10..12] == buf[10..12]
            && out[12..16] == [0, 0, 0, 0] && out[16..20] == BigEndian(r.assignedIp, 4)
            && out[20..28] == [0, 0, 0, 0, 0, 0, 0, 0]
            && out[28..43] == buf[28..43] && out[43] == residue.hwTail
            && out[44..236] == seq(192, i => 0) && out[236..240] == [99, 130, 83, 99]
  {
    var d := Receive(e, buf, residue, serverIp, recvAddr).datagram;
    ReplyHeader(scan, cfg, t, d, c);
    ReceivedFields(e, buf, residue, serverIp, recvAddr);
    EncodedReply(e, Handle(scan, cfg, t, d, c).outcome.datagram, order);
  }

  lemma EncodedReply(e: Endian, r: Datagram, order: seq<Item>)
    requires r.secs == 0 && r.clientIp == 0 && r.serverIp == 0 && r.relayIp == 0
    ensures var out := Encode(e, r, order);
            && |out| > 240
            && out[0] == r.opcode && out[1] == r.hwType && out[2] == r.hwLen && out[3] == 0
            && out[4..8] == NetworkBytes(e, r.xid, 4) && out[8..10] == [0, 0] && out[10..12] == BigEndian(r.flags, 2)
            && out[12..16] == [0, 0, 0, 0] && out[16..20] == BigEndian(r.assignedIp, 4)
            && out[20..28] == [0, 0, 0, 0, 0, 0, 0, 0]
            && out[28..43] == r.hwAddr[..15] && out[43] == r.hwAddr[15]
            && out[44..236] == seq(192, i => 0) && out[236..240] == [99, 130, 83, 99]
  {
    var h, more := EncodeHeader(e, r), Spell(order) + [OPTIONS_END];
    FieldOffsets(e, r);
    assert Encode(e, r, order) == h + more;
    SlicesOfPrefix(h, more);
    ZeroFields(e);
    assert h[28..43] == h[28..44][..15] && h[43] == h[28..44][15];
    assert h[20..28] == h[20..24] + h[24..28];
  }

  lemma ZeroFields(e: Endian)
    ensures BigEndian(0, 4) == [0, 0, 0, 0] && NetworkBytes(e, 0, 2) == [0, 0]
  {
    assert BigEndian(0, 1) == BigEndian(0, 0) + [0];
    assert BigEndian(0, 2) == BigEndian(0, 1) + [0];
    assert BigEndian(0, 3) == BigEndian(0, 2) + [0];
    NetworkBytesInMemory(e, 0, [0, 0]);
    assert Reverse(BigEndian(0, 2)) == [0, 0];
  }

  lemma ReplyIsEncodable(scan: Scan, cfg: Config, t: Table, d: Datagram, c: Clock)
    requires Encodable(cfg.definedOptions) && Handle(scan, cfg, t, d, c).outcome.Reply?
    ensures Encodable(Handle(scan, cfg, t, d, c).outcome.datagram.options)
  {
    if Is(d, DHCP_TYPE_DISCOVER) {
      assert Handle(scan, cfg, t, d, c) == Discover(scan, cfg, t, d, c);
      OfferIsEncodable(cfg, d, Choose(scan, cfg, Purge(t, c.purge), d, c.left).remaining);
    } else if Is(d, DHCP_TYPE_REQUEST) {
      assert Handle(scan, cfg, t, d, c) == Request(cfg, t, d, c);
      AckIsEncodable(cfg, d);
    }
  }

  lemma OfferIsEncodable(cfg: Config, d: Datagram, remaining: Option<uint32>)
    requires Encodable(cfg.definedOptions)
    ensures Encodable(OfferOptions(cfg, d, remaining))
  {
  }

  lemma AckIsEncodable(cfg: Config, d: Datagram)
    requires Encodable(cfg.definedOptions)
    ensures Encodable(AckOptions(cfg, d))
  {
  }

  /** The client's side: whoever decodes the bytes of a reply, with anything behind them, recovers the reply
      as the handler made it, exactly when its options are legal on the wire, as they are when the
      configured ones are. The address in an OFFER or ACK is the one the lease table records for
      the client; every other address in a reply is zero. */
  lemma ClientReadsWhatIsRecorded(
    e: Endian, scan: Scan, cfg: Config, t: Table, d: Datagram, c: Clock, order: seq<Item>, tail: seq<byte>, residue: Residue)
    requires Handle(scan, cfg, t, d, c).outcome.Reply?
    requires IsEnumeration(order, Handle(scan, cfg, t, d, c).outcome.datagram.options)
    ensures var after := Handle(scan, cfg, t, d, c);
            var r := after.outcome.datagram;
            var seen := Decode(e, Encode(e, r, order) + tail, residue);
            && (seen == Received(Recovered(r, residue)) <==> Encodable(r.options))
            && (Encodable(cfg.definedOptions) ==> Encodable(r.options))
            && r.opcode == 2 && r.xid == d.xid && r.flags == d.flags && r.secs == 0 && r.clientIp == 0 && r.serverIp == 0
            && r.hwAddr == d.hwAddr
            && (if Grants(Exchange(Message(d, c), after.outcome), d.hwAddr)
                then d.hwAddr in after.table && r.assignedIp == after.table[d.hwAddr].address
                else r.assignedIp == 0)
  {
    var r := Handle(scan, cfg, t, d, c).outcome.datagram;
    if Encodable(cfg.definedOptions) {
      ReplyIsEncodable(scan, cfg, t, d, c);
    }
    ReplyIsSkeleton(scan, cfg, t, d, c);
    DatagramRoundTrip(e, r, order, tail, residue);
    AssignedIsRecorded(scan, cfg, t, d, c);
  }

  /** From the buffer that came in to the option the client reads: an OFFER or ACK names the address
      on which the server received the request. */
  lemma AnswerNamesServer(
    e: Endian, buf: seq<byte>, residue: Residue, serverIp: uint32, recvAddr: uint32,
    scan: Scan, cfg: Config, t: Table, c: Clock, order: seq<Item>, tail: seq<byte>, clientResidue: Residue)
    requires |buf| >= 240 && Receive(e, buf, residue, serverIp, recvAddr).Received? && Encodable(cfg.definedOptions)
    requires var d := Receive(e, buf, residue, serverIp, recvAddr).datagram;
             var o := Handle(scan, cfg, t, d, c).outcome;
             o.Reply? && (IsType(d, 1) || (IsType(d, 3) && Says(o, 5))) && IsEnumeration(order, o.datagram.options)
    ensures var d := Receive(e, buf, residue, serverIp, recvAddr).datagram;
            var seen := Decode(e, Encode(e, Handle(scan, cfg, t, d, c).outcome.datagram, order) + tail, clientResidue);
            && seen.Received? && 54 in seen.datagram.options
            && FromBigEndian(seen.datagram.options[54]) == recvAddr
  {
    var d := Receive(e, buf, residue, serverIp, recvAddr).datagram;
    ReceivedFields(e, buf, residue, serverIp, recvAddr);
    ClientReadsWhatIsRecorded(e, scan, cfg, t, d, c, order, tail, clientResidue);
    if IsType(d, 1) {
      OfferContents(scan, cfg, t, d, c);
    } else {
      AckContents(scan, cfg, t, d, c);
    }
    Word32RoundTrip(recvAddr);
  }

  lemma AssignedIsRecorded(scan: Scan, cfg: Config, t: Table, d: Datagram, c: Clock)
    requires Handle(scan, cfg, t, d, c).outcome.Reply?
    ensures var after := Handle(scan, cfg, t, d, c);
            if Grants(Exchange(Message(d, c), after.outcome), d.hwAddr)
            then d.hwAddr in after.table && after.outcome.datagram.assignedIp == after.table[d.hwAddr].address
            else after.outcome.datagram.assignedIp == 0
  {
    GrantIsRecorded(scan, cfg, t, d, c);
    if Is(d, DHCP_TYPE_DISCOVER) {
      assert Handle(scan, cfg, t, d, c) == Discover(scan, cfg, t, d, c);
    } else if Is(d, DHCP_TYPE_REQUEST) {
      assert Handle(scan, cfg, t, d, c) == Request(cfg, t, d, c);
    }
  }
}
