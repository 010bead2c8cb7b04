/** What the daemon does with each datagram, in the numbers of RFC 2131 and RFC 2132: message types,
    option tags, seconds and bounds are written out, and tables are compared entry by entry. */
module Conduct {
  import opened Wrappers
  import opened Bytes
  import opened Options
  import opened DhcpDatagram
  import opened SubnetConfig
  import opened Leases
  import opened Handlers
  import opened Justification

  /** A request whose message type, the first byte of option 53, is `n`. */
  predicate IsType(d: Datagram, n: nat) {
    d.opcode == 1 && 53 in d.options && |d.options[53]| > 0 && d.options[53][0] == n
  }

  predicate Live(t: Table, k: HwAddr, now: uint64) {
    k in t && t[k].expiry > now
  }

  /** The reply has message type `n` and assigns `address`. */
  predicate Answers(o: Outcome, n: byte, address: uint32) {
    o.Reply? && 53 in o.datagram.options && o.datagram.options[53] == [n] && o.datagram.assignedIp == address
  }

  /** Apart from the client `except`, the entries are those of `t` that have not expired. */
  ghost predicate KeepsLive(after: Table, t: Table, now: uint64, except: set<HwAddr>) {
    forall k :: k !in except ==> (k in after <==> Live(t, k, now)) && (k in after ==> after[k] == t[k])
  }

  /** Apart from the client `except`, the two tables have the same entries. */
  ghost predicate KeepsAll(after: Table, t: Table, except: set<HwAddr>) {
    forall k :: k !in except ==> (k in after <==> k in t) && (k in after ==> after[k] == t[k])
  }

  // ---- what is answered at all ----

  /** Nothing but a DISCOVER, a REQUEST or an INFORM is ever answered. */
  lemma OnlyThreeTypesAreAnswered(scan: Scan, cfg: Config, t: Table, d: Datagram, c: Clock)
    ensures Handle(scan, cfg, t, d, c).outcome.Reply? ==> IsType(d, 1) || IsType(d, 3) || IsType(d, 8)
  {
  }

  /** Another opcode than 1 passes without a trace, as does an unknown message type. A request without a message type ends the process. */
  lemma OthersAreIgnored(scan: Scan, cfg: Config, t: Table, d: Datagram, c: Clock)
    requires !IsType(d, 1) && !IsType(d, 3) && !IsType(d, 4) && !IsType(d, 7) && !IsType(d, 8)
    ensures Handle(scan, cfg, t, d, c).table == t
    ensures Handle(scan, cfg, t, d, c).outcome ==
              if d.opcode == 1 && (53 !in d.options || d.options[53] == []) then Crashed else Silent
  {
  }

  /** A RELEASE erases the sender's entry. Nothing else changes and nothing is sent. */
  lemma ReleaseErases(scan: Scan, cfg: Config, t: Table, d: Datagram, c: Clock)
    requires IsType(d, 7)
    ensures var e := Handle(scan, cfg, t, d, c);
            e.outcome == Silent && d.hwAddr !in e.table && KeepsAll(e.table, t, {d.hwAddr})
  {
  }

  /** A DECLINE of `address` enters it for the all-zero client, never to expire. Nothing is sent. */
  lemma DeclineEnters(scan: Scan, cfg: Config, t: Table, d: Datagram, c: Clock, address: uint32)
    requires IsType(d, 4) && 50 in d.options && d.options[50] == BigEndian(address, 4)
    ensures var e := Handle(scan, cfg, t, d, c);
            var zero := seq(16, i => 0);
            && e.outcome == Silent && KeepsAll(e.table, t, {zero})
            && zero in e.table && e.table[zero] == Lease(address, 0xFFFF_FFFF_FFFF_FFFF)
  {
    SpelledWord(d.options[50], address);
    assert seq(16, i => 0) == ZERO_HWADDR;
  }

  /** A DECLINE without option 50 ends the process, one whose option 50 has not four bytes is rejected. */
  lemma MalformedDecline(scan: Scan, cfg: Config, t: Table, d: Datagram, c: Clock)
    requires IsType(d, 4)
    ensures 50 !in d.options ==> Handle(scan, cfg, t, d, c) == Effect(t, Crashed)
    ensures 50 in d.options && |d.options[50]| != 4 ==> Handle(scan, cfg, t, d, c) == Effect(t, Rejected)
  {
  }

  /** Whatever the request, the header of the reply repeats it, and has no address but the assigned one. */
  lemma ReplyHeader(scan: Scan, cfg: Config, t: Table, d: Datagram, c: Clock)
    requires Handle(scan, cfg, t, d, c).outcome.Reply?
    ensures var r := Handle(scan, cfg, t, d, c).outcome.datagram;
            && r.opcode == 2 && r.hwType == d.hwType && r.hwLen == d.hwLen && r.xid == d.xid && r.flags == d.flags
            && r.hwAddr == d.hwAddr && r.secs == 0
            && r.clientIp == 0 && r.serverIp == 0 && r.relayIp == 0
            && (IsType(d, 8) ==> r.assignedIp == 0)
  {
    if IsType(d, 1) {
      assert Handle(scan, cfg, t, d, c) == Discover(scan, cfg, t, d, c);
    } else if IsType(d, 3) {
      assert Handle(scan, cfg, t, d, c) == Request(cfg, t, d, c);
    }
  }

  // ---- DISCOVER ----

  /** A DISCOVER purges, and a reply to it is an OFFER that is recorded for ten seconds. */
  lemma OfferIsRecorded(scan: Scan, cfg: Config, t: Table, d: Datagram, c: Clock)
    requires IsType(d, 1)
    ensures var e := Handle(scan, cfg, t, d, c);
            if e.outcome.Reply?
            then && Answers(e.outcome, 2, e.outcome.datagram.assignedIp)
                 && d.hwAddr in e.table
                 && e.table[d.hwAddr] == Lease(e.outcome.datagram.assignedIp, (c.stamp + 10) % 0x1_0000_0000_0000_0000)
                 && KeepsLive(e.table, t, c.purge, {d.hwAddr})
            else KeepsLive(e.table, t, c.purge, {})
  {
    assert Handle(scan, cfg, t, d, c) == Discover(scan, cfg, t, d, c);
  }

  /** A client that holds the address it requests, in the range with both ends, keeps it, whatever its
      ciaddr. One that does not hold it, or requests an address outside the range, does not get it that
      way: its nonzero ciaddr is offered instead. */
  lemma HeldWishIsOffered(scan: Scan, cfg: Config, t: Table, d: Datagram, c: Clock, wish: uint32)
    requires IsType(d, 1) && 50 in d.options && d.options[50] == BigEndian(wish, 4)
    ensures var o := Handle(scan, cfg, t, d, c).outcome;
            if cfg.rangeStart <= wish <= cfg.rangeEnd && Live(t, d.hwAddr, c.purge) && t[d.hwAddr].address == wish
            then wish != 0 ==> Answers(o, 2, wish)
            else d.clientIp != 0 ==> Answers(o, 2, d.clientIp)
  {
    SpelledWord(d.options[50], wish);
    assert Handle(scan, cfg, t, d, c) == Discover(scan, cfg, t, d, c);
  }

  /** The wish fails, or there is none, or it is 0.0.0.0 and kept; and the ciaddr decides nothing. */
  predicate WantsAny(cfg: Config, t: Table, d: Datagram, now: uint64) {
    if 50 !in d.options then d.clientIp == 0
    else
      && |d.options[50]| == 4
      && var wish := FromBigEndian(d.options[50]);
         if cfg.rangeStart <= wish <= cfg.rangeEnd && Live(t, d.hwAddr, now) && t[d.hwAddr].address == wish
         then wish == 0 else d.clientIp == 0
  }

  lemma AnyAddressWillDo(scan: Scan, cfg: Config, t: Table, d: Datagram, c: Clock)
    requires IsType(d, 1) && WantsAny(cfg, t, d, c.purge)
    ensures Choose(scan, cfg, Purge(t, c.purge), d, c.left) == Pick(scan, cfg, Purge(t, c.purge), d)
  {
    if 50 in d.options {
      assert d.options[50][0..4] == d.options[50];
    }
  }

  /** Without a requested address, a nonzero ciaddr is offered to a client with a live entry; for any
      other the process ends. A requested address of the wrong size is rejected. */
  lemma CiaddrNeedsLease(scan: Scan, cfg: Config, t: Table, d: Datagram, c: Clock)
    requires IsType(d, 1)
    ensures 50 !in d.options && d.clientIp != 0 ==>
              var o := Handle(scan, cfg, t, d, c).outcome;
              if Live(t, d.hwAddr, c.purge) then Answers(o, 2, d.clientIp) else o == Crashed
    ensures 50 in d.options && |d.options[50]| != 4 ==> Handle(scan, cfg, t, d, c).outcome == Rejected
  {
    assert Handle(scan, cfg, t, d, c) == Discover(scan, cfg, t, d, c);
  }

  /** A fixed host is known by the octets its hlen counts, with zeros up to six. */
  predicate KnownAs(d: Datagram, ether: EtherAddr) {
    forall i :: 0 <= i < 6 ==> ether[i] == if i < d.hwLen then d.hwAddr[i] else 0
  }

  lemma FixedHostIsOffered(scan: Scan, cfg: Config, t: Table, d: Datagram, c: Clock, ether: EtherAddr)
    requires IsType(d, 1) && WantsAny(cfg, t, d, c.purge) && KnownAs(d, ether) && ether in cfg.fixedHosts
    ensures Answers(Handle(scan, cfg, t, d, c).outcome, 2, cfg.fixedHosts[ether])
  {
    assert ether == EtherOf(d);
    AnyAddressWillDo(scan, cfg, t, d, c);
    assert Handle(scan, cfg, t, d, c) == Discover(scan, cfg, t, d, c);
  }

  lemma OthersAreSearchedFor(scan: Scan, cfg: Config, t: Table, d: Datagram, c: Clock, ether: EtherAddr, address: uint32)
    requires IsType(d, 1) && WantsAny(cfg, t, d, c.purge) && KnownAs(d, ether) && ether !in cfg.fixedHosts
    ensures var o := Handle(scan, cfg, t, d, c).outcome;
            var found := Search(scan, Purge(t, c.purge), cfg.rangeStart, cfg.rangeEnd);
            && (Answers(o, 2, address) <==> found == Some(address))
            && (o == Silent <==> found == None)
  {
    assert ether == EtherOf(d);
    AnyAddressWillDo(scan, cfg, t, d, c);
    assert Handle(scan, cfg, t, d, c) == Discover(scan, cfg, t, d, c);
  }

  /** The loop as written looks at `first` only, the live client whose address bytes come before all
      others: the start of the range is offered, or the next address if `first` has that one. */
  lemma FirstEntryDecides(cfg: Config, t: Table, d: Datagram, c: Clock, ether: EtherAddr, first: HwAddr)
    requires IsType(d, 1) && WantsAny(cfg, t, d, c.purge) && KnownAs(d, ether) && ether !in cfg.fixedHosts
    requires Live(t, first, c.purge) && forall k :: Live(t, k, c.purge) ==> k == first || Before(first, k)
    ensures var o := Handle(AsWritten, cfg, t, d, c).outcome;
            var candidate := if t[first].address == cfg.rangeStart then (cfg.rangeStart + 1) % 0x1_0000_0000 else cfg.rangeStart;
            if candidate < cfg.rangeEnd then Answers(o, 2, candidate) else o == Silent
  {
    var live := Purge(t, c.purge);
    LeastIsBeforeAll(live.Keys, first);
    var candidate := if t[first].address == cfg.rangeStart then Successor(cfg.rangeStart) else cfg.rangeStart;
    OthersAreSearchedFor(AsWritten, cfg, t, d, c, ether, candidate);
  }

  /** With nobody live it offers the start of the range, wherever the range ends. */
  lemma EmptyTableOffersStart(cfg: Config, t: Table, d: Datagram, c: Clock, ether: EtherAddr)
    requires IsType(d, 1) && WantsAny(cfg, t, d, c.purge) && KnownAs(d, ether) && ether !in cfg.fixedHosts
    requires forall k :: !Live(t, k, c.purge)
    ensures Answers(Handle(AsWritten, cfg, t, d, c).outcome, 2, cfg.rangeStart)
  {
    assert forall k :: k in Purge(t, c.purge) ==> Live(t, k, c.purge);
    OthersAreSearchedFor(AsWritten, cfg, t, d, c, ether, cfg.rangeStart);
  }

  /** Some live client holds the address. */
  ghost predicate Taken(t: Table, address: int, now: uint64) {
    exists k :: Live(t, k, now) && t[k].address == address
  }

  /** The intended search offers the least address of the range, its end excluded, that no live client
      holds, and stays silent exactly when there is none. */
  lemma LeastFreeIsOffered(cfg: Config, t: Table, d: Datagram, c: Clock, ether: EtherAddr, address: uint32)
    requires IsType(d, 1) && WantsAny(cfg, t, d, c.purge) && KnownAs(d, ether) && ether !in cfg.fixedHosts
    ensures var o := Handle(Intended, cfg, t, d, c).outcome;
            && (Answers(o, 2, address) <==>
                && cfg.rangeStart <= address < cfg.rangeEnd && !Taken(t, address, c.purge)
                && forall b :: cfg.rangeStart <= b < address ==> Taken(t, b, c.purge))
            && (o == Silent <==> forall b :: cfg.rangeStart <= b < cfg.rangeEnd ==> Taken(t, b, c.purge))
  {
    var live := Purge(t, c.purge);
    forall a
      ensures Held(live, a) <==> Taken(t, a, c.purge)
    {
      if k :| Live(t, k, c.purge) && t[k].address == a {
        assert k in live;
      }
    }
    SearchIsComplete(live, cfg.rangeStart, cfg.rangeEnd);
    OthersAreSearchedFor(Intended, cfg, t, d, c, ether, address);
  }

  // ---- REQUEST ----

  /** A REQUEST for `address` is acknowledged exactly when the address agrees with the subnet on all bits
      of the mask and the sender has it, live, in the table. The lease then runs from now for the
      configured time. Otherwise the answer is a NAK that has no other option and no address. */
  lemma RequestDecides(scan: Scan, cfg: Config, t: Table, d: Datagram, c: Clock, address: uint32)
    requires IsType(d, 3)
    requires if 50 in d.options then d.options[50] == BigEndian(address, 4) else d.clientIp == address
    ensures var e := Handle(scan, cfg, t, d, c);
            var inside := BitAnd(address, cfg.netmask) == BitAnd(cfg.subnetAddress, cfg.netmask);
            if inside && Live(t, d.hwAddr, c.purge) && t[d.hwAddr].address == address
            then && Answers(e.outcome, 5, address)
                 && d.hwAddr in e.table
                 && e.table[d.hwAddr] == Lease(address, (c.stamp + cfg.leaseTime) % 0x1_0000_0000_0000_0000)
                 && KeepsLive(e.table, t, c.purge, {d.hwAddr})
            else && Answers(e.outcome, 6, 0) && e.outcome.datagram.options == map[53 := [6]]
                 && (if inside then KeepsLive(e.table, t, c.purge, {}) else e.table == t)
  {
    AskedAddressIsSpelled(d, address);
    AckSays(cfg, d);
    assert Handle(scan, cfg, t, d, c) == Request(cfg, t, d, c);
  }

  /** A REQUEST whose option 50 has not four bytes changes nothing. */
  lemma MalformedRequest(scan: Scan, cfg: Config, t: Table, d: Datagram, c: Clock)
    requires IsType(d, 3) && 50 in d.options && |d.options[50]| != 4
    ensures Handle(scan, cfg, t, d, c) == Effect(t, Rejected)
  {
  }
}
