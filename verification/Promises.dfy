/** What every reachable table and every reply keep: subnet membership, bounded lifetimes, agreement
    of the promised lease time with the recorded one, and the fate of declined addresses. */
module Promises {
  import opened Wrappers
  import opened Bytes
  import opened Options
  import opened DhcpDatagram
  import opened SubnetConfig
  import opened Leases
  import opened Handlers
  import opened Runs
  import opened Justification

  // ---- every lease and every offered address is in the subnet, exactly when ----

  /** The configuration was accepted, its mask is a CIDR prefix, and the first address of the range has
      a successor. The ends of the range may be swapped. */
  ghost predicate SoundRange(cfg: Config) {
    cfg.WellConfigured() && PrefixMask(cfg.netmask, 32) && cfg.rangeStart < 0xFFFF_FFFF
  }

  /** Every client's lease, and not the entry of a declined address, is in the subnet. */
  ghost predicate AllInSubnet(cfg: Config, t: Table) {
    forall k :: k in t && k != ZERO_HWADDR ==> cfg.InSubnet(t[k].address)
  }

  lemma RangeIsInSubnet(cfg: Config, a: uint32)
    requires SoundRange(cfg) && cfg.rangeStart <= a <= cfg.rangeEnd
    ensures cfg.InSubnet(a)
  {
    WordBounds();
    RangeCheckCoversRange(cfg.netmask, cfg.subnetAddress, 32);
    assert InNet(cfg.rangeStart, cfg.netmask, cfg.subnetAddress) && InNet(cfg.rangeEnd, cfg.netmask, cfg.subnetAddress);
  }

  /** Both searches stay between the ends, or give the first address out of an empty table. */
  lemma SearchStaysInRange(scan: Scan, t: Table, start: uint32, end: uint32)
    requires start < 0xFFFF_FFFF
    ensures var r := Search(scan, t, start, end); r.Some? ==> r.value == start || start <= r.value <= end
  {
    SearchIsComplete(t, start, end);
  }

  lemma PickIsInSubnet(scan: Scan, cfg: Config, live: Table, d: Datagram)
    requires SoundRange(cfg)
    ensures var pick := Pick(scan, cfg, live, d); pick.Offer? ==> cfg.InSubnet(pick.address)
  {
    var found := Search(scan, live, cfg.rangeStart, cfg.rangeEnd);
    SearchStaysInRange(scan, live, cfg.rangeStart, cfg.rangeEnd);
    if found.Some? && cfg.rangeStart <= found.value <= cfg.rangeEnd {
      RangeIsInSubnet(cfg, found.value);
    }
  }

  /** The DISCOVER is answered with its ciaddr, which is outside the subnet. */
  predicate OffersOutside(cfg: Config, t: Table, d: Datagram, c: Clock) {
    Is(d, DHCP_TYPE_DISCOVER) && OffersCiaddr(cfg, Purge(t, c.purge), d) && !cfg.InSubnet(d.clientIp)
  }

  /** What a DISCOVER is offered is in the subnet unless it is such a ciaddr. */
  lemma ChoiceIsInSubnetExactlyWhen(scan: Scan, cfg: Config, t: Table, d: Datagram, c: Clock)
    requires SoundRange(cfg) && Is(d, DHCP_TYPE_DISCOVER)
    ensures var choice := Choose(scan, cfg, Purge(t, c.purge), d, c.left);
            choice.Offer? ==> (cfg.InSubnet(choice.address) <==> !OffersOutside(cfg, t, d, c))
    ensures OffersOutside(cfg, t, d, c) ==> Choose(scan, cfg, Purge(t, c.purge), d, c.left).Offer?
  {
    var live := Purge(t, c.purge);
    ChoiceByGuards(scan, cfg, live, d, c.left);
    PickIsInSubnet(scan, cfg, live, d);
    if OffersWish(cfg, live, d) {
      RangeIsInSubnet(cfg, Word(d.options[REQUESTED_IP_ADDRESS], 0));
    }
  }

  /** An OFFER or ACK of an address outside the subnet is the answer to such a DISCOVER, and every such
      DISCOVER has one. */
  lemma GrantIsOutsideExactlyWhen(scan: Scan, cfg: Config, t: Table, d: Datagram, c: Clock)
    requires SoundRange(cfg)
    ensures var x := Exchange(Message(d, c), Handle(scan, cfg, t, d, c).outcome);
            Grants(x, d.hwAddr) && !cfg.InSubnet(x.outcome.datagram.assignedIp) <==> OffersOutside(cfg, t, d, c)
  {
    if Is(d, DHCP_TYPE_DISCOVER) {
      ChoiceIsInSubnetExactlyWhen(scan, cfg, t, d, c);
      assert Handle(scan, cfg, t, d, c) == Discover(scan, cfg, t, d, c);
    } else if Is(d, DHCP_TYPE_REQUEST) {
      RequestStaysInSubnet(cfg, t, d, c);
      assert Handle(scan, cfg, t, d, c) == Request(cfg, t, d, c);
    }
  }

  lemma RequestStaysInSubnet(cfg: Config, t: Table, d: Datagram, c: Clock)
    ensures AllInSubnet(cfg, t) ==> AllInSubnet(cfg, Request(cfg, t, d, c).table)
    ensures var o := Request(cfg, t, d, c).outcome; Says(o, DHCP_TYPE_ACK) ==> cfg.InSubnet(o.datagram.assignedIp)
  {
    assert [DHCP_TYPE_ACK][0] != [DHCP_TYPE_NAK][0];
  }

  /** The event enters an address outside the subnet for a client. */
  predicate LeavesSubnet(cfg: Config, t: Table, e: Event) {
    e.Message? && e.d.hwAddr != ZERO_HWADDR && OffersOutside(cfg, t, e.d, e.c)
  }

  /** Whatever the event and whichever the search, leases stay in the subnet exactly when it is not a
      DISCOVER that is answered with a ciaddr outside. */
  lemma StepStaysInSubnetExactlyWhen(scan: Scan, cfg: Config, t: Table, e: Event)
    requires SoundRange(cfg) && AllInSubnet(cfg, t)
    ensures AllInSubnet(cfg, Step(scan, cfg, t, e).table) <==> !LeavesSubnet(cfg, t, e)
  {
    if e.Message? && Is(e.d, DHCP_TYPE_DISCOVER) {
      ChoiceIsInSubnetExactlyWhen(scan, cfg, t, e.d, e.c);
      DiscoverEnters(scan, cfg, t, e.d, e.c);
    } else if e.Message? && Is(e.d, DHCP_TYPE_REQUEST) {
      RequestStaysInSubnet(cfg, t, e.d, e.c);
    }
  }

  lemma DiscoverEnters(scan: Scan, cfg: Config, t: Table, d: Datagram, c: Clock)
    requires AllInSubnet(cfg, t)
    ensures var choice := Choose(scan, cfg, Purge(t, c.purge), d, c.left);
            AllInSubnet(cfg, Discover(scan, cfg, t, d, c).table) <==>
              choice.Offer? && d.hwAddr != ZERO_HWADDR ==> cfg.InSubnet(choice.address)
  {
    var choice := Choose(scan, cfg, Purge(t, c.purge), d, c.left);
    if choice.Offer? {
      var after := Discover(scan, cfg, t, d, c).table;
      assert d.hwAddr in after && after[d.hwAddr].address == choice.address;
    }
  }

  ghost predicate InSubnetThroughout(scan: Scan, cfg: Config, t: Table, es: seq<Event>) {
    forall n :: 0 <= n <= |es| ==> AllInSubnet(cfg, Final(scan, cfg, t, es[..n]))
  }

  /** No event of the run enters an address outside the subnet. */
  ghost predicate NeverLeavesSubnet(scan: Scan, cfg: Config, t: Table, es: seq<Event>) {
    forall i :: 0 <= i < |es| ==> !LeavesSubnet(cfg, Final(scan, cfg, t, es[..i]), es[i])
  }

  /** In every state of a run, with either search, every lease is in the subnet, exactly when no event of
      the run is one of those. */
  lemma RunStaysInSubnetExactlyWhen(scan: Scan, cfg: Config, t: Table, es: seq<Event>)
    requires SoundRange(cfg) && AllInSubnet(cfg, t)
    ensures InSubnetThroughout(scan, cfg, t, es) <==> NeverLeavesSubnet(scan, cfg, t, es)
  {
    if InSubnetThroughout(scan, cfg, t, es) {
      forall i | 0 <= i < |es|
        ensures !LeavesSubnet(cfg, Final(scan, cfg, t, es[..i]), es[i])
      {
        NextStaysInSubnetExactlyWhen(scan, cfg, t, es, i);
      }
    }
    if NeverLeavesSubnet(scan, cfg, t, es) {
      forall n | 0 <= n <= |es|
        ensures AllInSubnet(cfg, Final(scan, cfg, t, es[..n]))
      {
        StaysInSubnetSoFar(scan, cfg, t, es, n);
      }
    }
  }

  lemma NextStaysInSubnetExactlyWhen(scan: Scan, cfg: Config, t: Table, es: seq<Event>, i: nat)
    requires SoundRange(cfg) && i < |es| && AllInSubnet(cfg, Final(scan, cfg, t, es[..i]))
    ensures AllInSubnet(cfg, Final(scan, cfg, t, es[..i + 1])) <==> !LeavesSubnet(cfg, Final(scan, cfg, t, es[..i]), es[i])
  {
    FinalNext(scan, cfg, t, es, i);
    StepStaysInSubnetExactlyWhen(scan, cfg, Final(scan, cfg, t, es[..i]), es[i]);
  }

  lemma {:induction false} StaysInSubnetSoFar(scan: Scan, cfg: Config, t: Table, es: seq<Event>, n: nat)
    requires SoundRange(cfg) && AllInSubnet(cfg, t) && n <= |es| && NeverLeavesSubnet(scan, cfg, t, es)
    ensures AllInSubnet(cfg, Final(scan, cfg, t, es[..n]))
  {
    if n > 0 {
      StaysInSubnetSoFar(scan, cfg, t, es, n - 1);
      NextStaysInSubnetExactlyWhen(scan, cfg, t, es, n - 1);
    }
  }

  predicate ZeroCiaddr(e: Event) {
    e.Message? && Is(e.d, DHCP_TYPE_DISCOVER) ==> e.d.clientIp == 0
  }

  /** In particular, when every DISCOVER of the run has ciaddr zero, every lease at its end is in the
      subnet, and so is every address its last event grants. */
  lemma RunsStayInSubnet(scan: Scan, cfg: Config, t: Table, es: seq<Event>)
    requires SoundRange(cfg) && AllInSubnet(cfg, t)
    requires forall i :: 0 <= i < |es| ==> ZeroCiaddr(es[i])
    ensures AllInSubnet(cfg, Final(scan, cfg, t, es))
    ensures es != [] && es[|es| - 1].Message? ==>
              var x := Exchange(es[|es| - 1], OutcomeAt(scan, cfg, t, es, |es| - 1));
              Grants(x, x.event.d.hwAddr) ==> cfg.InSubnet(x.outcome.datagram.assignedIp)
  {
    assert es[..|es|] == es;
    StaysInSubnetSoFar(scan, cfg, t, es, |es|);
    if es != [] && es[|es| - 1].Message? {
      var n := |es| - 1;
      GrantIsOutsideExactlyWhen(scan, cfg, Final(scan, cfg, t, es[..n]), es[n].d, es[n].c);
    }
  }

  /** The failing input: a DISCOVER that gives an address outside the subnet as its ciaddr and requests
      the same address is offered it, and the table records it, whatever the table and the address. */
  lemma AnyOutsideAddressIsOffered(scan: Scan, cfg: Config, t: Table, c: Clock, k: HwAddr, address: uint32)
    returns (d: Datagram)
    requires SoundRange(cfg) && address != 0 && !cfg.InSubnet(address) && k != ZERO_HWADDR
    ensures d.hwAddr == k && Is(d, DHCP_TYPE_DISCOVER)
    ensures var after := Handle(scan, cfg, t, d, c);
            && Says(after.outcome, DHCP_TYPE_OFFER) && after.outcome.datagram.assignedIp == address
            && k in after.table && after.table[k].address == address && !AllInSubnet(cfg, after.table)
  {
    var wish := BigEndian(address, 4);
    d := Datagram(1, 1, 6, 0, 0, 0, address, 0, 0, 0, 0, k,
                  map[DHCP_MESSAGE_TYPE := [DHCP_TYPE_DISCOVER], REQUESTED_IP_ADDRESS := wish]);
    assert d.options[REQUESTED_IP_ADDRESS] == wish && wish[0..4] == wish;
    Word32RoundTrip(address);
    assert Word(wish, 0) == address;
    if cfg.rangeStart <= address <= cfg.rangeEnd {
      RangeIsInSubnet(cfg, address);
      assert false;
    }
    var live := Purge(t, c.purge);
    assert OffersCiaddr(cfg, live, d);
    ChoiceByGuards(scan, cfg, live, d, c.left);
    assert Handle(scan, cfg, t, d, c) == Discover(scan, cfg, t, d, c);
  }

  /** The mask 255.0.0.0 keeps the first octet. */
  lemma FirstOctet(a: uint32, octet: nat, offset: nat, mask: uint32)
    requires mask == 0xFF00_0000 && a == 0x100_0000 * octet + offset && offset < 0x100_0000
    ensures BitAnd(a, mask) == 0x100_0000 * octet
    ensures PrefixMask(mask, 32)
  {
    WordBounds();
    Pow2Plus8(16);
    AndPrefixMask(a, 32, 24);
    QuotientUnique(a, 0x100_0000, octet, offset);
    assert mask == Pow2(32) - Pow2(24);
  }

  /** The network 10.0.0.0/8 with a range inside it. */
  predicate IsTenNet(cfg: Config) {
    && cfg.netmask == 0xFF00_0000 && cfg.subnetAddress == 0x0A00_0000
    && cfg.rangeStart == 0x0A00_000A && cfg.rangeEnd == 0x0A00_00BE && cfg.fixedHosts == map[]
    && SUBNET_MASK in cfg.definedOptions && cfg.definedOptions[SUBNET_MASK] == BigEndian(cfg.netmask, 4)
    && LEASE_TIME in cfg.definedOptions && cfg.definedOptions[LEASE_TIME] == BigEndian(cfg.leaseTime, 4)
  }

  lemma InTenNet(cfg: Config, a: uint32, octet: nat, offset: nat)
    requires IsTenNet(cfg) && a == 0x100_0000 * octet + offset && offset < 0x100_0000
    ensures cfg.InSubnet(a) <==> octet == 10
    ensures PrefixMask(cfg.netmask, 32)
  {
    FirstOctet(a, octet, offset, cfg.netmask);
    FirstOctet(cfg.subnetAddress, 10, 0, cfg.netmask);
  }

  /** There are such configurations and addresses: 1.2.3.4 is outside 10.0.0.0/8. */
  lemma OutsideAddressExists(cfg: Config, address: uint32)
    requires IsTenNet(cfg) && address == 0x0102_0304
    ensures SoundRange(cfg) && !cfg.InSubnet(address)
  {
    InTenNet(cfg, cfg.rangeStart, 10, 10);
    InTenNet(cfg, cfg.rangeEnd, 10, 190);
    InTenNet(cfg, address, 1, 0x02_0304);
  }

  // ---- lifetimes ----

  function LongestLease(cfg: Config): nat {
    if cfg.leaseTime > OFFER_SECONDS then cfg.leaseTime else OFFER_SECONDS
  }

  /** No client's lease outlives `now` by more than the longest lease time. */
  ghost predicate Bounded(cfg: Config, t: Table, now: uint64) {
    forall k :: k in t && k != ZERO_HWADDR ==> t[k].expiry <= now + LongestLease(cfg)
  }

  lemma {:induction false} LifetimesStayBounded(scan: Scan, cfg: Config, t: Table, es: seq<Event>, begin: uint64)
    requires Timed(es, begin) && Bounded(cfg, t, begin)
    ensures Bounded(cfg, Final(scan, cfg, t, es), LastTime(es, begin))
  {
    if es != [] {
      var n := |es| - 1;
      LifetimesStayBounded(scan, cfg, t, es[..n], begin);
      StepStaysBounded(scan, cfg, Final(scan, cfg, t, es[..n]), es[n], LastTime(es[..n], begin));
    }
  }

  lemma LaterAtMost(stamp: uint64, seconds: nat)
    ensures Later(stamp, seconds) <= stamp + seconds
  {
  }

  lemma EntryStaysBounded(cfg: Config, t: Table, before: uint64, c: Clock, k: HwAddr, address: uint32, seconds: nat)
    requires Bounded(cfg, t, before) && before <= c.stamp && seconds <= LongestLease(cfg)
    ensures Bounded(cfg, Purge(t, c.purge)[k := Lease(address, Later(c.stamp, seconds))], c.stamp)
  {
    LaterAtMost(c.stamp, seconds);
  }

  lemma StepStaysBounded(scan: Scan, cfg: Config, t: Table, e: Event, before: uint64)
    requires Bounded(cfg, t, before) && before <= e.Start() && e.Ordered()
    ensures Bounded(cfg, Step(scan, cfg, t, e).table, e.End())
  {
    if e.Message? && Is(e.d, DHCP_TYPE_DISCOVER) {
      DiscoverStaysBounded(scan, cfg, t, e.d, e.c, before);
    } else if e.Message? && Is(e.d, DHCP_TYPE_REQUEST) {
      RequestStaysBounded(cfg, t, e.d, e.c, before);
    }
  }

  lemma DiscoverStaysBounded(scan: Scan, cfg: Config, t: Table, d: Datagram, c: Clock, before: uint64)
    requires Bounded(cfg, t, before) && before <= c.stamp
    ensures Bounded(cfg, Discover(scan, cfg, t, d, c).table, c.stamp)
  {
    var choice := Choose(scan, cfg, Purge(t, c.purge), d, c.left);
    if choice.Offer? {
      EntryStaysBounded(cfg, t, before, c, d.hwAddr, choice.address, OFFER_SECONDS);
    }
  }

  lemma RequestStaysBounded(cfg: Config, t: Table, d: Datagram, c: Clock, before: uint64)
    requires Bounded(cfg, t, before) && before <= c.stamp
    ensures Bounded(cfg, Request(cfg, t, d, c).table, c.stamp)
  {
    if AskedAddress(d).Some? {
      EntryStaysBounded(cfg, t, before, c, d.hwAddr, AskedAddress(d).value, cfg.leaseTime);
    }
  }

  /** A remaining time is reported, and it is the true one exactly when the expiry is not past. */
  predicate RemainingExactExactlyWhen(choice: Choice, expiry: uint64, now: uint64) {
    choice.Offer? && choice.remaining.Some? && (choice.remaining.value == expiry - now <==> now <= expiry)
  }

  /** The remaining time reported for a lease is the true one exactly when the clock has not passed
      the expiry between the purge and the subtraction; if it has, the unsigned difference wraps. */
  lemma RemainingTimeIsExactExactlyWhen(
    scan: Scan, cfg: Config, t: Table, es: seq<Event>, begin: uint64, d: Datagram, c: Clock)
    requires Timed(es, begin) && Bounded(cfg, t, begin) && LastTime(es, begin) <= c.purge && c.Ordered()
    requires d.hwAddr != ZERO_HWADDR && d.hwAddr in Purge(Final(scan, cfg, t, es), c.purge)
    requires REQUESTED_IP_ADDRESS !in d.options && d.clientIp != 0
    ensures var live := Purge(Final(scan, cfg, t, es), c.purge);
            RemainingExactExactlyWhen(Choose(scan, cfg, live, d, c.left), live[d.hwAddr].expiry, c.left)
  {
    LifetimesStayBounded(scan, cfg, t, es, begin);
    RemainingTimeOf(scan, cfg, Final(scan, cfg, t, es), LastTime(es, begin), d, c);
  }

  lemma RemainingTimeOf(scan: Scan, cfg: Config, t: Table, last: uint64, d: Datagram, c: Clock)
    requires Bounded(cfg, t, last) && last <= c.purge && c.Ordered()
    requires d.hwAddr != ZERO_HWADDR && d.hwAddr in Purge(t, c.purge)
    requires REQUESTED_IP_ADDRESS !in d.options && d.clientIp != 0
    ensures var live := Purge(t, c.purge);
            RemainingExactExactlyWhen(Choose(scan, cfg, live, d, c.left), live[d.hwAddr].expiry, c.left)
  {
    FitsExactlyWhen(Purge(t, c.purge)[d.hwAddr].expiry - c.left);
  }

  /** Truncation to 32 bits. */
  lemma FitsExactlyWhen(x: int)
    ensures x % 0x1_0000_0000 == x <==> 0 <= x < 0x1_0000_0000
  {
  }

  // ---- the lease time in an ACK ----

  /** The option the client reads agrees with the expiry the table records exactly when the
      configured option, if it gets copied at all, spells the configured lease time. */
  lemma AckPromisesWhatIsRecorded(scan: Scan, cfg: Config, t: Table, d: Datagram, c: Clock)
    requires Is(d, DHCP_TYPE_REQUEST) && Says(Handle(scan, cfg, t, d, c).outcome, DHCP_TYPE_ACK)
    ensures var after := Handle(scan, cfg, t, d, c);
            var reply := after.outcome.datagram.options;
            && LEASE_TIME in reply && d.hwAddr in after.table
            && after.table[d.hwAddr].expiry == Later(c.stamp, cfg.leaseTime)
            && (FromBigEndian(reply[LEASE_TIME]) == cfg.leaseTime <==>
                || LEASE_TIME !in cfg.definedOptions
                || PARAMETER_REQUEST_LIST !in d.options
                || LEASE_TIME !in d.options[PARAMETER_REQUEST_LIST]
                || FromBigEndian(cfg.definedOptions[LEASE_TIME]) == cfg.leaseTime)
  {
    assert Handle(scan, cfg, t, d, c) == Request(cfg, t, d, c);
    assert [DHCP_TYPE_ACK][0] != [DHCP_TYPE_NAK][0];
    Word32RoundTrip(cfg.leaseTime);
  }

  /** Under an accepted configuration the promise is always the record, asked for or not. */
  lemma AckPromiseHolds(scan: Scan, cfg: Config, t: Table, d: Datagram, c: Clock)
    requires cfg.WellConfigured() && c.stamp + cfg.leaseTime <= UINT64_MAX
    requires Is(d, DHCP_TYPE_REQUEST) && Says(Handle(scan, cfg, t, d, c).outcome, DHCP_TYPE_ACK)
    ensures var after := Handle(scan, cfg, t, d, c);
            && LEASE_TIME in after.outcome.datagram.options && d.hwAddr in after.table
            && c.stamp + FromBigEndian(after.outcome.datagram.options[LEASE_TIME]) == after.table[d.hwAddr].expiry
  {
    AckPromisesWhatIsRecorded(scan, cfg, t, d, c);
    Word32RoundTrip(cfg.leaseTime);
  }

  /** The lease time in an answer that has no remaining time to report: the configured option if it is
      asked for, and the configured number of seconds otherwise. */
  function LeaseTimeFor(cfg: Config, d: Datagram): seq<byte> {
    if 51 in cfg.definedOptions && 55 in d.options && 51 in d.options[55] then cfg.definedOptions[51]
    else BigEndian(cfg.leaseTime, 4)
  }

  /** All options of an OFFER: its type, the server's own address, a lease time that is the remaining time
      where that is reported, and the configured options that were requested. */
  lemma OfferContents(scan: Scan, cfg: Config, t: Table, d: Datagram, c: Clock)
    requires Is(d, 1) && Handle(scan, cfg, t, d, c).outcome.Reply?
    ensures var options := Handle(scan, cfg, t, d, c).outcome.datagram.options;
            && 53 in options && options[53] == [2]
            && 54 in options && options[54] == BigEndian(d.recvAddr, 4)
            && 51 in options
            && options[51] == (if 50 !in d.options && d.clientIp != 0
                               then BigEndian((t[d.hwAddr].expiry - c.left) % 0x1_0000_0000, 4) else LeaseTimeFor(cfg, d))
            && CarriesRequested(cfg, d, options, {51, 53, 54})
  {
    assert Handle(scan, cfg, t, d, c) == Discover(scan, cfg, t, d, c);
    OfferOptionsContents(cfg, d, Choose(scan, cfg, Purge(t, c.purge), d, c.left).remaining);
  }

  lemma OfferOptionsContents(cfg: Config, d: Datagram, remaining: Option<uint32>)
    ensures var options := OfferOptions(cfg, d, remaining);
            && 53 in options && options[53] == [2]
            && 54 in options && options[54] == BigEndian(d.recvAddr, 4)
            && 51 in options
            && options[51] == (if remaining.Some? then BigEndian(remaining.value, 4) else LeaseTimeFor(cfg, d))
            && CarriesRequested(cfg, d, options, {51, 53, 54})
  {
  }

  /** All options of an ACK. */
  lemma AckContents(scan: Scan, cfg: Config, t: Table, d: Datagram, c: Clock)
    requires Is(d, 3) && Says(Handle(scan, cfg, t, d, c).outcome, 5)
    ensures var options := Handle(scan, cfg, t, d, c).outcome.datagram.options;
            && 54 in options && options[54] == BigEndian(d.recvAddr, 4)
            && 51 in options && options[51] == LeaseTimeFor(cfg, d)
            && CarriesRequested(cfg, d, options, {51, 53, 54})
  {
    assert Handle(scan, cfg, t, d, c) == Request(cfg, t, d, c);
    assert [DHCP_TYPE_ACK][0] != [DHCP_TYPE_NAK][0];
  }

  /** Under an accepted configuration the lease time is the configured one, asked for or not. */
  lemma LeaseTimeIsConfigured(cfg: Config, d: Datagram)
    requires cfg.WellConfigured()
    ensures FromBigEndian(LeaseTimeFor(cfg, d)) == cfg.leaseTime
  {
    Word32RoundTrip(cfg.leaseTime);
  }

  // ---- the requested address in a DISCOVER ----

  /** What the requested address `wish` does. If the client holds it and it lies in the range, ends
      included, it is offered, whatever the ciaddr. If not, a nonzero ciaddr is offered instead. What is
      left, and also the wish 0.0.0.0, is as if there had been no request and no ciaddr. */
  lemma RequestedAddressIsAWish(scan: Scan, cfg: Config, t: Table, d: Datagram, c: Clock, wish: uint32)
    requires Is(d, 1) && 50 in d.options && d.options[50] == BigEndian(wish, 4)
    ensures var o := Handle(scan, cfg, t, d, c).outcome;
            var kept := cfg.rangeStart <= wish <= cfg.rangeEnd && HoldsAt(t, d.hwAddr, wish, c.purge);
            if kept && wish != 0 then Says(o, 2) && o.datagram.assignedIp == wish
            else if !kept && d.clientIp != 0 then Says(o, 2) && o.datagram.assignedIp == d.clientIp
            else Handle(scan, cfg, t, d, c) == Handle(scan, cfg, t, Unwished(d), c)
  {
    WishDecides(scan, cfg, Purge(t, c.purge), d, c.left, wish);
    UnwishedReplies(cfg, d);
    assert Is(Unwished(d), 1);
    assert Handle(scan, cfg, t, d, c) == Discover(scan, cfg, t, d, c);
    assert Handle(scan, cfg, t, Unwished(d), c) == Discover(scan, cfg, t, Unwished(d), c);
  }

  lemma WishDecides(scan: Scan, cfg: Config, live: Table, d: Datagram, left: uint64, wish: uint32)
    requires 50 in d.options && d.options[50] == BigEndian(wish, 4)
    ensures var kept := cfg.rangeStart <= wish <= cfg.rangeEnd && d.hwAddr in live && live[d.hwAddr].address == wish;
            Choose(scan, cfg, live, d, left) ==
              if kept && wish != 0 then Offer(wish, None)
              else if !kept && d.clientIp != 0 then Offer(d.clientIp, None)
              else Choose(scan, cfg, live, Unwished(d), left)
  {
    SpelledWord(d.options[50], wish);
    UnwishedReplies(cfg, d);
  }

  function Unwished(d: Datagram): Datagram {
    d.(options := d.options - {REQUESTED_IP_ADDRESS}, clientIp := 0)
  }

  lemma UnwishedReplies(cfg: Config, d: Datagram)
    ensures OfferOptions(cfg, Unwished(d), None) == OfferOptions(cfg, d, None)
    ensures Skeleton(Unwished(d)) == Skeleton(d) && EtherOf(Unwished(d)) == EtherOf(d)
  {
  }

  // ---- declined addresses ----

  /** The address is filed as declined. */
  predicate Declined(t: Table, address: uint32) {
    ZERO_HWADDR in t && t[ZERO_HWADDR] == Lease(address, UINT64_MAX)
  }

  predicate IsDeclineOf(d: Datagram, address: uint32) {
    && Is(d, DHCP_TYPE_DECLINE)
    && REQUESTED_IP_ADDRESS in d.options && |d.options[REQUESTED_IP_ADDRESS]| == 4
    && Word(d.options[REQUESTED_IP_ADDRESS], 0) == address
  }

  lemma DeclineFiles(scan: Scan, cfg: Config, t: Table, d: Datagram, c: Clock, address: uint32)
    requires IsDeclineOf(d, address)
    ensures Declined(Handle(scan, cfg, t, d, c).table, address)
  {
  }

  /** The purge in the last second of the clock takes the permanent entry with it; otherwise only
      datagrams of the all-zero address touch it, and a DECLINE of another address. */
  ghost predicate Unfiles(scan: Scan, cfg: Config, t: Table, e: Event, address: uint32) {
    match e
    case Restart(written, _) => written == UINT64_MAX
    case Message(d, c) =>
      || (Is(d, DHCP_TYPE_DECLINE) && exists other :: other != address && IsDeclineOf(d, other))
      || (Is(d, DHCP_TYPE_RELEASE) && d.hwAddr == ZERO_HWADDR)
      || (Is(d, DHCP_TYPE_REQUEST) && RequestUnfiles(cfg, d, c, address))
      || (Is(d, DHCP_TYPE_DISCOVER) && DiscoverUnfiles(scan, cfg, t, d, c, address))
  }

  /** A REQUEST that passes the subnet test purges; one of the all-zero client for the declined address
      gives it an ordinary lease, unless that too runs out in the last second. */
  predicate RequestUnfiles(cfg: Config, d: Datagram, c: Clock, address: uint32) {
    && AskedAddress(d).Some? && cfg.InSubnet(AskedAddress(d).value)
    && (c.purge == UINT64_MAX
        || (d.hwAddr == ZERO_HWADDR && AskedAddress(d).value == address && Later(c.stamp, cfg.leaseTime) != UINT64_MAX))
  }

  /** A DISCOVER purges; one of the all-zero client replaces the entry when it is offered its ciaddr, a
      fixed address or one from the pool, and also when it is offered the declined address again, unless
      that offer runs out in the last second. */
  ghost predicate DiscoverUnfiles(scan: Scan, cfg: Config, t: Table, d: Datagram, c: Clock, address: uint32) {
    || c.purge == UINT64_MAX
    || (&& d.hwAddr == ZERO_HWADDR
        && var live := Purge(t, c.purge);
           || (OffersDeclined(cfg, live, d, address) && Later(c.stamp, OFFER_SECONDS) != UINT64_MAX)
           || (OffersCiaddr(cfg, live, d) && d.clientIp != address)
           || (ReachesPick(cfg, live, d)
               && (if EtherOf(d) in cfg.fixedHosts then cfg.fixedHosts[EtherOf(d)] != address
                   else PoolAnswers(scan, live, cfg.rangeStart, cfg.rangeEnd))))
  }

  /** A declined address stays filed over an event exactly when the event is none of those listed. */
  lemma StepUnfilesExactlyWhen(scan: Scan, cfg: Config, t: Table, e: Event, address: uint32)
    requires Declined(t, address) && e.Ordered()
    ensures Declined(Step(scan, cfg, t, e).table, address) <==> !Unfiles(scan, cfg, t, e, address)
  {
    if e.Message? && Is(e.d, DHCP_TYPE_DISCOVER) {
      DiscoverUnfilesExactlyWhen(scan, cfg, t, e.d, e.c, address);
    } else if e.Message? && Is(e.d, DHCP_TYPE_REQUEST) {
      assert Step(scan, cfg, t, e) == Request(cfg, t, e.d, e.c);
    } else if e.Message? && Is(e.d, DHCP_TYPE_DECLINE) && Decline(t, e.d).outcome.Silent? {
      assert IsDeclineOf(e.d, Word(e.d.options[REQUESTED_IP_ADDRESS], 0));
    }
  }

  lemma DiscoverUnfilesExactlyWhen(scan: Scan, cfg: Config, t: Table, d: Datagram, c: Clock, address: uint32)
    requires Declined(t, address) && c.Ordered() && Is(d, DHCP_TYPE_DISCOVER)
    ensures Declined(Discover(scan, cfg, t, d, c).table, address) <==> !DiscoverUnfiles(scan, cfg, t, d, c, address)
  {
    var live := Purge(t, c.purge);
    ChoiceByGuards(scan, cfg, live, d, c.left);
    if c.purge == UINT64_MAX {
      assert Later(UINT64_MAX, OFFER_SECONDS) != UINT64_MAX;
    } else {
      SearchAvoidsDeclined(scan, live, cfg.rangeStart, cfg.rangeEnd, address);
      SearchAnswersExactlyWhen(scan, live, cfg.rangeStart, cfg.rangeEnd);
    }
  }

  predicate AllOrdered(es: seq<Event>) {
    forall i :: 0 <= i < |es| ==> es[i].Ordered()
  }

  /** No event of the run unfiles the address. */
  ghost predicate SparesDeclined(scan: Scan, cfg: Config, t: Table, es: seq<Event>, address: uint32) {
    forall i :: 0 <= i < |es| ==> !Unfiles(scan, cfg, Final(scan, cfg, t, es[..i]), es[i], address)
  }

  /** The address is filed after every event of the run. */
  ghost predicate FiledThroughout(scan: Scan, cfg: Config, t: Table, es: seq<Event>, address: uint32) {
    forall n :: 0 <= n <= |es| ==> Declined(Final(scan, cfg, t, es[..n]), address)
  }

  /** Over a run, with any restarts, it stays filed all the time exactly when no event unfiles it. */
  lemma DeclinedStaysFiledExactlyWhen(scan: Scan, cfg: Config, t: Table, es: seq<Event>, address: uint32)
    requires Declined(t, address) && AllOrdered(es)
    ensures FiledThroughout(scan, cfg, t, es, address) <==> SparesDeclined(scan, cfg, t, es, address)
  {
    if FiledThroughout(scan, cfg, t, es, address) {
      forall i | 0 <= i < |es|
        ensures !Unfiles(scan, cfg, Final(scan, cfg, t, es[..i]), es[i], address)
      {
        FinalNext(scan, cfg, t, es, i);
        StepUnfilesExactlyWhen(scan, cfg, Final(scan, cfg, t, es[..i]), es[i], address);
      }
    }
    if SparesDeclined(scan, cfg, t, es, address) {
      forall n | 0 <= n <= |es|
        ensures Declined(Final(scan, cfg, t, es[..n]), address)
      {
        SparedStaysFiled(scan, cfg, t, es, address, n);
      }
    }
  }

  lemma {:induction false} SparedStaysFiled(scan: Scan, cfg: Config, t: Table, es: seq<Event>, address: uint32, n: nat)
    requires Declined(t, address) && AllOrdered(es) && n <= |es|
    requires SparesDeclined(scan, cfg, t, es, address)
    ensures Declined(Final(scan, cfg, t, es[..n]), address)
  {
    if n > 0 {
      SparedStaysFiled(scan, cfg, t, es, address, n - 1);
      FinalNext(scan, cfg, t, es, n - 1);
      StepUnfilesExactlyWhen(scan, cfg, Final(scan, cfg, t, es[..n - 1]), es[n - 1], address);
    }
  }

  /** Neither search returns a declined address: the intended one looks at every entry, and the one
      as written looks at the first, which is the one under the all-zero key. */
  lemma SearchAvoidsDeclined(scan: Scan, t: Table, start: uint32, end: uint32, address: uint32)
    requires Declined(t, address)
    ensures Search(scan, t, start, end) != Some(address)
  {
    ZeroIsLeast(t.Keys);
    assert Held(t, address);
    SearchIsComplete(t, start, end);
  }

  /** A filed address is offered exactly to a client that requests it and holds it already, that
      names it as its ciaddr and is not given another, or whose fixed address it is. */
  lemma DeclinedIsOfferedExactlyWhen(scan: Scan, cfg: Config, t: Table, d: Datagram, c: Clock, address: uint32)
    requires Declined(t, address) && Is(d, DHCP_TYPE_DISCOVER) && c.purge < UINT64_MAX
    ensures var live := Purge(t, c.purge);
            var o := Handle(scan, cfg, t, d, c).outcome;
            o.Reply? && o.datagram.assignedIp == address <==> OffersDeclined(cfg, live, d, address)
  {
    var live := Purge(t, c.purge);
    SearchAvoidsDeclined(scan, live, cfg.rangeStart, cfg.rangeEnd, address);
    assert Handle(scan, cfg, t, d, c) == Discover(scan, cfg, t, d, c);
  }

  predicate OffersDeclined(cfg: Config, live: Table, d: Datagram, address: uint32) {
    || (OffersWish(cfg, live, d) && Word(d.options[REQUESTED_IP_ADDRESS], 0) == address)
    || (OffersCiaddr(cfg, live, d) && d.clientIp == address)
    || (ReachesPick(cfg, live, d) && EtherOf(d) in cfg.fixedHosts && cfg.fixedHosts[EtherOf(d)] == address)
  }

  /** The whole story: after a DECLINE of the address and any run that does not unfile it, whatever
      restarts it has, the address is offered in those three cases only, so never from the pool. */
  lemma DeclinedAddressStaysOut(
    scan: Scan, cfg: Config, t: Table, decline: Datagram, dc: Clock, es: seq<Event>, d: Datagram, c: Clock, address: uint32)
    requires IsDeclineOf(decline, address) && AllOrdered(es)
    requires SparesDeclined(scan, cfg, Handle(scan, cfg, t, decline, dc).table, es, address)
    requires Is(d, DHCP_TYPE_DISCOVER) && c.purge < UINT64_MAX
    ensures var before := Final(scan, cfg, Handle(scan, cfg, t, decline, dc).table, es);
            var o := Handle(scan, cfg, before, d, c).outcome;
            o.Reply? && o.datagram.assignedIp == address <==> OffersDeclined(cfg, Purge(before, c.purge), d, address)
  {
    var filed := Handle(scan, cfg, t, decline, dc).table;
    DeclineFiles(scan, cfg, t, decline, dc, address);
    DeclinedStaysFiledExactlyWhen(scan, cfg, filed, es, address);
    assert es[..|es|] == es;
    DeclinedIsOfferedExactlyWhen(scan, cfg, Final(scan, cfg, filed, es), d, c, address);
  }

  /** In particular, a REQUEST from the all-zero address for the declined address itself is
      acknowledged, and turns the permanent entry into an ordinary lease. */
  lemma ZeroClientUndoesDecline(scan: Scan, cfg: Config, t: Table, d: Datagram, c: Clock, address: uint32)
    requires Declined(t, address) && Is(d, DHCP_TYPE_REQUEST) && d.hwAddr == ZERO_HWADDR && c.purge < UINT64_MAX
    requires AsksFor(d, address)
    ensures Says(Handle(scan, cfg, t, d, c).outcome, DHCP_TYPE_ACK) <==> cfg.InSubnet(address)
    ensures Handle(scan, cfg, t, d, c).table[ZERO_HWADDR] ==
            if cfg.InSubnet(address) then Lease(address, Later(c.stamp, cfg.leaseTime)) else t[ZERO_HWADDR]
  {
    AskedAddressIsSpelled(d, address);
    assert Handle(scan, cfg, t, d, c) == Request(cfg, t, d, c);
    assert [DHCP_TYPE_ACK][0] != [DHCP_TYPE_NAK][0];
  }
}
