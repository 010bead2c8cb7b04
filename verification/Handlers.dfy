/** What each DHCP message does to the lease table and what is answered: the handlers of
    src/daemon.cpp as functions of the table, the datagram and the clock. */
module Handlers {
  import opened Wrappers
  import opened Bytes
  import opened Options
  import opened DhcpDatagram
  import opened SubnetConfig
  import opened Leases

  const DHCP_TYPE_DISCOVER: byte := 1
  const DHCP_TYPE_OFFER: byte := 2
  const DHCP_TYPE_REQUEST: byte := 3
  const DHCP_TYPE_DECLINE: byte := 4
  const DHCP_TYPE_ACK: byte := 5
  const DHCP_TYPE_NAK: byte := 6
  const DHCP_TYPE_RELEASE: byte := 7
  const DHCP_TYPE_INFORM: byte := 8

  const OFFER_SECONDS := 10

  /** The clock readings of one handler, in the order it takes them: for the purge, for the
      remaining lease time, and for the new expiry. */
  datatype Clock = Clock(purge: uint64, left: uint64, stamp: uint64) {
    predicate Ordered() {
      purge <= left <= stamp
    }
  }

  /** `Rejected` is an `invalid_argument`, which the socket layer catches and logs. `Crashed` is an
      `out_of_range`, which nobody catches: the process ends. */
  datatype Outcome = Silent | Reply(datagram: Datagram) | Rejected | Crashed

  datatype Effect = Effect(table: Table, outcome: Outcome)

  function Skeleton(d: Datagram): Datagram {
    Datagram(2, d.hwType, d.hwLen, d.xid, 0, d.flags, 0, 0, 0, 0, 0, d.hwAddr, map[])
  }

  /** The configured values of the listed tags that the reply does not carry yet. */
  function Wanted(defined: OptionMap, list: seq<byte>, reply: OptionMap): OptionMap {
    map tag | tag in defined && tag in list && tag !in reply :: defined[tag]
  }

  function SetRequested(defined: OptionMap, request: OptionMap, reply: OptionMap): OptionMap {
    if PARAMETER_REQUEST_LIST !in request then reply
    else reply + Wanted(defined, request[PARAMETER_REQUEST_LIST], reply)
  }

  function WithDefaultLeaseTime(cfg: Config, options: OptionMap): OptionMap {
    if LEASE_TIME in options then options else options[LEASE_TIME := BigEndian(cfg.leaseTime, 4)]
  }

  /** The Ethernet address under which a client may have a fixed address: the first `hwLen` octets. */
  function EtherOf(d: Datagram): EtherAddr {
    var n := if d.hwLen < 6 then d.hwLen else 6;
    d.hwAddr[..n] + Zeros(6 - n)
  }

  // ---- DISCOVER ----

  datatype Choice =
    | Offer(address: uint32, remaining: Option<uint32>)
    | NoFreeAddress
    | BadRequestedAddress
    | NoLeaseToReport

  function Pick(scan: Scan, cfg: Config, live: Table, d: Datagram): Choice {
    if EtherOf(d) in cfg.fixedHosts then Offer(cfg.fixedHosts[EtherOf(d)], None)
    else
      match Search(scan, live, cfg.rangeStart, cfg.rangeEnd)
      case None => NoFreeAddress
      case Some(a) => Offer(a, None)
  }

  /** `address` unless it is INADDR_ANY. */
  function OfferOr(address: uint32, scan: Scan, cfg: Config, live: Table, d: Datagram): Choice {
    if address != 0 then Offer(address, None) else Pick(scan, cfg, live, d)
  }

  /** The client requests an address of the range, ends included, that it already holds. */
  predicate KeepsWish(cfg: Config, live: Table, d: Datagram) {
    && REQUESTED_IP_ADDRESS in d.options && |d.options[REQUESTED_IP_ADDRESS]| == 4
    && var wish := Word(d.options[REQUESTED_IP_ADDRESS], 0);
       cfg.rangeStart <= wish <= cfg.rangeEnd && d.hwAddr in live && live[d.hwAddr].address == wish
  }

  function Choose(scan: Scan, cfg: Config, live: Table, d: Datagram, left: uint64): Choice {
    if REQUESTED_IP_ADDRESS in d.options then
      var bytes := d.options[REQUESTED_IP_ADDRESS];
      if |bytes| != 4 then BadRequestedAddress
      else OfferOr(if KeepsWish(cfg, live, d) then Word(bytes, 0) else d.clientIp, scan, cfg, live, d)
    else if d.clientIp != 0 then
      if d.hwAddr in live then Offer(d.clientIp, Some((live[d.hwAddr].expiry - left) % 0x1_0000_0000))
      else NoLeaseToReport
    else Pick(scan, cfg, live, d)
  }

  /** A requested address is offered: it is kept, and it is not INADDR_ANY. */
  predicate OffersWish(cfg: Config, live: Table, d: Datagram) {
    KeepsWish(cfg, live, d) && Word(d.options[REQUESTED_IP_ADDRESS], 0) != 0
  }

  /** The two ways in which a nonzero ciaddr is offered as it is: with a requested address that is
      not kept, or without one from a client that holds anything at all. */
  predicate OffersCiaddr(cfg: Config, live: Table, d: Datagram) {
    && d.clientIp != 0
    && (if REQUESTED_IP_ADDRESS in d.options then |d.options[REQUESTED_IP_ADDRESS]| == 4 && !KeepsWish(cfg, live, d)
        else d.hwAddr in live)
  }

  /** The client is given its fixed address or one from the pool. */
  predicate ReachesPick(cfg: Config, live: Table, d: Datagram) {
    if REQUESTED_IP_ADDRESS !in d.options then d.clientIp == 0
    else
      && |d.options[REQUESTED_IP_ADDRESS]| == 4
      && (if KeepsWish(cfg, live, d) then Word(d.options[REQUESTED_IP_ADDRESS], 0) == 0 else d.clientIp == 0)
  }

  /** What is offered, by the guards: at most one of the three holds, and nothing is offered without. */
  lemma ChoiceByGuards(scan: Scan, cfg: Config, live: Table, d: Datagram, left: uint64)
    ensures var choice := Choose(scan, cfg, live, d, left);
            if OffersWish(cfg, live, d) then choice == Offer(Word(d.options[REQUESTED_IP_ADDRESS], 0), None)
            else if OffersCiaddr(cfg, live, d) then choice.Offer? && choice.address == d.clientIp
            else if ReachesPick(cfg, live, d) then choice == Pick(scan, cfg, live, d)
            else !choice.Offer?
    ensures OffersCiaddr(cfg, live, d) || ReachesPick(cfg, live, d) ==> !OffersWish(cfg, live, d)
    ensures OffersCiaddr(cfg, live, d) ==> !ReachesPick(cfg, live, d)
  {
  }

  function OfferBase(d: Datagram, remaining: Option<uint32>): OptionMap {
    var typed := map[DHCP_MESSAGE_TYPE := [DHCP_TYPE_OFFER], SERVER_IDENTIFIER := BigEndian(d.recvAddr, 4)];
    if remaining.Some? then typed[LEASE_TIME := BigEndian(remaining.value, 4)] else typed
  }

  function OfferOptions(cfg: Config, d: Datagram, remaining: Option<uint32>): OptionMap {
    WithDefaultLeaseTime(cfg, SetRequested(cfg.definedOptions, d.options, OfferBase(d, remaining)))
  }

  /** Adding seconds to a 64-bit time stamp. */
  function Later(stamp: uint64, seconds: nat): uint64 {
    (stamp + seconds) % 0x1_0000_0000_0000_0000
  }

  function Discover(scan: Scan, cfg: Config, t: Table, d: Datagram, c: Clock): Effect {
    var live := Purge(t, c.purge);
    match Choose(scan, cfg, live, d, c.left)
    case NoFreeAddress => Effect(live, Silent)
    case BadRequestedAddress => Effect(live, Rejected)
    case NoLeaseToReport => Effect(live, Crashed)
    case Offer(address, remaining) =>
      Effect(
        live[d.hwAddr := Lease(address, Later(c.stamp, OFFER_SECONDS))],
        Reply(Skeleton(d).(assignedIp := address, options := OfferOptions(cfg, d, remaining))))
  }

  // ---- REQUEST ----

  /** The address a REQUEST is about; `None` if the option has the wrong size. */
  function AskedAddress(d: Datagram): Option<uint32> {
    if REQUESTED_IP_ADDRESS !in d.options then Some(d.clientIp)
    else if |d.options[REQUESTED_IP_ADDRESS]| != 4 then None
    else Some(Word(d.options[REQUESTED_IP_ADDRESS], 0))
  }

  function AckOptions(cfg: Config, d: Datagram): OptionMap {
    var requested := SetRequested(cfg.definedOptions, d.options, map[DHCP_MESSAGE_TYPE := [DHCP_TYPE_ACK]]);
    WithDefaultLeaseTime(cfg, requested[SERVER_IDENTIFIER := BigEndian(d.recvAddr, 4)])
  }

  function Ack(cfg: Config, d: Datagram, address: uint32): Datagram {
    Skeleton(d).(assignedIp := address, options := AckOptions(cfg, d))
  }

  function Nak(d: Datagram): Datagram {
    Skeleton(d).(options := map[DHCP_MESSAGE_TYPE := [DHCP_TYPE_NAK]])
  }

  function Request(cfg: Config, t: Table, d: Datagram, c: Clock): Effect {
    match AskedAddress(d)
    case None => Effect(t, Rejected)
    case Some(asked) =>
      if !cfg.InSubnet(asked) then Effect(t, Reply(Nak(d)))
      else
        var live := Purge(t, c.purge);
        if d.hwAddr in live && live[d.hwAddr].address == asked then
          Effect(live[d.hwAddr := Lease(asked, Later(c.stamp, cfg.leaseTime))], Reply(Ack(cfg, d, asked)))
        else Effect(live, Reply(Nak(d)))
  }

  // ---- RELEASE, INFORM, DECLINE ----

  function Release(t: Table, d: Datagram): Effect {
    Effect(t - {d.hwAddr}, Silent)
  }

  function Inform(cfg: Config, t: Table, d: Datagram): Effect {
    Effect(t, Reply(Skeleton(d).(options := SetRequested(cfg.definedOptions, d.options, map[]) - {LEASE_TIME})))
  }

  function Decline(t: Table, d: Datagram): Effect {
    if REQUESTED_IP_ADDRESS !in d.options then Effect(t, Crashed)
    else if |d.options[REQUESTED_IP_ADDRESS]| != 4 then Effect(t, Rejected)
    else Effect(t[ZERO_HWADDR := Lease(Word(d.options[REQUESTED_IP_ADDRESS], 0), UINT64_MAX)], Silent)
  }

  // ---- dispatch ----

  predicate HasType(d: Datagram) {
    DHCP_MESSAGE_TYPE in d.options && d.options[DHCP_MESSAGE_TYPE] != []
  }

  /** The datagram is a request of the given type. */
  predicate Is(d: Datagram, messageType: byte) {
    d.opcode == 1 && HasType(d) && d.options[DHCP_MESSAGE_TYPE][0] == messageType
  }

  function Handle(scan: Scan, cfg: Config, t: Table, d: Datagram, c: Clock): Effect {
    if d.opcode != 1 then Effect(t, Silent)
    else if !HasType(d) then Effect(t, Crashed)
    else if Is(d, DHCP_TYPE_DISCOVER) then Discover(scan, cfg, t, d, c)
    else if Is(d, DHCP_TYPE_REQUEST) then Request(cfg, t, d, c)
    else if Is(d, DHCP_TYPE_RELEASE) then Release(t, d)
    else if Is(d, DHCP_TYPE_INFORM) then Inform(cfg, t, d)
    else if Is(d, DHCP_TYPE_DECLINE) then Decline(t, d)
    else Effect(t, Silent)
  }

  // ---- facts about single calls ----

  /** The reply is an ACK, OFFER or NAK. INFORM replies carry no message type of the handler's own. */
  predicate Says(o: Outcome, messageType: byte) {
    o.Reply? && DHCP_MESSAGE_TYPE in o.datagram.options && o.datagram.options[DHCP_MESSAGE_TYPE] == [messageType]
  }

  /** Only the set of requested tags matters, not their order or how often each is listed; nothing
      already in the reply is overwritten; asking twice adds nothing. */
  lemma RequestedOptionsDependOnTagSet(defined: OptionMap, a: OptionMap, b: OptionMap, reply: OptionMap)
    requires PARAMETER_REQUEST_LIST in a && PARAMETER_REQUEST_LIST in b
    requires forall tag :: tag in a[PARAMETER_REQUEST_LIST] <==> tag in b[PARAMETER_REQUEST_LIST]
    ensures SetRequested(defined, a, reply) == SetRequested(defined, b, reply)
    ensures forall tag :: tag in reply ==> SetRequested(defined, a, reply)[tag] == reply[tag]
    ensures SetRequested(defined, a, SetRequested(defined, a, reply)) == SetRequested(defined, a, reply)
  {
    var once := SetRequested(defined, a, reply);
    assert SetRequested(defined, a, once) == once;
    assert SetRequested(defined, b, reply) == once;
  }

  /** An INFORM changes no lease and is answered with the requested configured options, in their
      configured values, except the lease time. */
  lemma InformTouchesNoLease(scan: Scan, cfg: Config, t: Table, d: Datagram, c: Clock)
    requires Is(d, DHCP_TYPE_INFORM)
    ensures var e := Handle(scan, cfg, t, d, c);
            && e.table == t && e.outcome.Reply? && 51 !in e.outcome.datagram.options
            && CarriesRequested(cfg, d, e.outcome.datagram.options, {51})
  {
  }

  /** Apart from the handler's own tags, the reply carries the requested tags that are configured, with
      their configured values, and nothing else. */
  ghost predicate CarriesRequested(cfg: Config, d: Datagram, options: OptionMap, own: set<byte>) {
    forall tag: byte :: tag !in own ==>
      && (tag in options <==>
            tag in cfg.definedOptions && 55 in d.options && tag in d.options[55])
      && (tag in options ==> options[tag] == cfg.definedOptions[tag])
  }
}
