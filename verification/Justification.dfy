/** An ACK is sent exactly when the traffic seen so far justifies it. */
module Justification {
  import opened Wrappers
  import opened Bytes
  import opened Options
  import opened DhcpDatagram
  import opened SubnetConfig
  import opened Leases
  import opened Handlers
  import opened Runs

  /** A datagram and its answer, as an observer on the network sees them. */
  datatype Exchange = Exchange(event: Event, outcome: Outcome)

  function Trace(scan: Scan, cfg: Config, t: Table, es: seq<Event>): (tr: seq<Exchange>)
    ensures |tr| == |es|
  {
    if es == [] then []
    else
      var n := |es| - 1;
      Trace(scan, cfg, t, es[..n]) + [Exchange(es[n], OutcomeAt(scan, cfg, t, es, n))]
  }

  /** Exchange `x` offers or acknowledges an address to client `k`. */
  predicate Grants(x: Exchange, k: HwAddr) {
    && x.event.Message? && x.event.d.hwAddr == k
    && (|| (Is(x.event.d, DHCP_TYPE_DISCOVER) && Says(x.outcome, DHCP_TYPE_OFFER))
        || (Is(x.event.d, DHCP_TYPE_REQUEST) && Says(x.outcome, DHCP_TYPE_ACK)))
  }

  /** The address granted and when the grant runs out: ten seconds after an OFFER, the configured
      lease time after an ACK. */
  function Grant(cfg: Config, x: Exchange, k: HwAddr): Lease
    requires Grants(x, k)
  {
    Lease(
      x.outcome.datagram.assignedIp,
      Later(x.event.c.stamp, if Is(x.event.d, DHCP_TYPE_DISCOVER) then OFFER_SECONDS else cfg.leaseTime))
  }

  /** Exchange `x` is a DECLINE with an address, which is filed under the all-zero hardware address. */
  predicate Files(x: Exchange) {
    && x.event.Message? && Is(x.event.d, DHCP_TYPE_DECLINE)
    && REQUESTED_IP_ADDRESS in x.event.d.options && |x.event.d.options[REQUESTED_IP_ADDRESS]| == 4
  }

  /** Exchange `x` makes an entry for `k`. */
  predicate Enters(x: Exchange, k: HwAddr) {
    Grants(x, k) || (k == ZERO_HWADDR && Files(x))
  }

  /** What the entry says; a declined address is filed for ever. */
  function Entry(cfg: Config, x: Exchange, k: HwAddr): Lease
    requires Enters(x, k)
  {
    if Grants(x, k) then Grant(cfg, x, k) else Lease(Word(x.event.d.options[REQUESTED_IP_ADDRESS], 0), UINT64_MAX)
  }

  predicate Releases(x: Exchange, k: HwAddr) {
    x.event.Message? && x.event.d.hwAddr == k && Is(x.event.d, DHCP_TYPE_RELEASE)
  }

  predicate Concerns(x: Exchange, k: HwAddr) {
    Enters(x, k) || Releases(x, k)
  }

  /** The last exchange that concerns `k` is number `i`. */
  ghost predicate LastConcern(tr: seq<Exchange>, k: HwAddr, i: int) {
    0 <= i < |tr| && Concerns(tr[i], k) && forall j :: i < j < |tr| ==> !Concerns(tr[j], k)
  }

  /** The traffic entitles `k` to `address` at time `now`: the last exchange that concerns `k` gave it
      that address and has not run out, or there is none and the table the daemon started with says so. */
  ghost predicate Entitled(cfg: Config, t: Table, tr: seq<Exchange>, k: HwAddr, address: uint32, now: uint64) {
    || (exists i :: LastConcern(tr, k, i) && Enters(tr[i], k)
          && Entry(cfg, tr[i], k).address == address && Entry(cfg, tr[i], k).expiry > now)
    || ((forall i :: 0 <= i < |tr| ==> !Concerns(tr[i], k))
        && k in t && t[k].address == address && t[k].expiry > now)
  }

  predicate HoldsAt(t: Table, k: HwAddr, address: uint32, now: uint64) {
    k in t && t[k].address == address && t[k].expiry > now
  }

  /** How one event changes what a client holds. */
  lemma StepHolds(scan: Scan, cfg: Config, t: Table, e: Event, k: HwAddr, address: uint32, now: uint64)
    requires e.Ordered() && e.End() <= now
    ensures var after := Step(scan, cfg, t, e);
            var x := Exchange(e, after.outcome);
            HoldsAt(after.table, k, address, now) <==>
              if Enters(x, k) then Entry(cfg, x, k).address == address && Entry(cfg, x, k).expiry > now
              else !Releases(x, k) && HoldsAt(t, k, address, now)
  {
    if e.Message? {
      var d := e.d;
      if Is(d, DHCP_TYPE_DISCOVER) {
        DiscoverHolds(scan, cfg, t, d, e.c, k, address, now);
      } else if Is(d, DHCP_TYPE_REQUEST) {
        RequestHolds(cfg, t, d, e.c, k, address, now);
      }
    }
  }

  lemma DiscoverHolds(scan: Scan, cfg: Config, t: Table, d: Datagram, c: Clock, k: HwAddr, address: uint32, now: uint64)
    requires c.Ordered() && c.stamp <= now
    ensures var after := Discover(scan, cfg, t, d, c);
            && (after.outcome.Reply? <==> Says(after.outcome, DHCP_TYPE_OFFER))
            && (HoldsAt(after.table, k, address, now) <==>
                if d.hwAddr == k && after.outcome.Reply?
                then after.outcome.datagram.assignedIp == address && Later(c.stamp, OFFER_SECONDS) > now
                else HoldsAt(t, k, address, now))
  {
  }

  lemma RequestHolds(cfg: Config, t: Table, d: Datagram, c: Clock, k: HwAddr, address: uint32, now: uint64)
    requires c.Ordered() && c.stamp <= now
    ensures var after := Request(cfg, t, d, c);
            HoldsAt(after.table, k, address, now) <==>
              if d.hwAddr == k && Says(after.outcome, DHCP_TYPE_ACK)
              then after.outcome.datagram.assignedIp == address && Later(c.stamp, cfg.leaseTime) > now
              else HoldsAt(t, k, address, now)
  {
  }

  lemma EntitledStep(cfg: Config, t: Table, tr: seq<Exchange>, x: Exchange, k: HwAddr, address: uint32, now: uint64)
    ensures Entitled(cfg, t, tr + [x], k, address, now) <==>
              if Enters(x, k) then Entry(cfg, x, k).address == address && Entry(cfg, x, k).expiry > now
              else !Releases(x, k) && Entitled(cfg, t, tr, k, address, now)
  {
    var longer := tr + [x];
    var n := |tr|;
    if Concerns(x, k) {
      assert longer[n] == x;
      assert LastConcern(longer, k, n);
      assert forall i :: LastConcern(longer, k, i) ==> i == n;
    } else {
      assert forall i :: 0 <= i < n ==> longer[i] == tr[i];
      forall i
        ensures LastConcern(longer, k, i) <==> LastConcern(tr, k, i)
      {
        if LastConcern(longer, k, i) {
          assert longer[n] == x;
        }
      }
    }
  }

  /** The table records exactly what the traffic entitles a client to. */
  lemma {:induction false} TableMatchesTraffic(
    scan: Scan, cfg: Config, t: Table, es: seq<Event>, begin: uint64, k: HwAddr, address: uint32, now: uint64)
    requires Timed(es, begin) && LastTime(es, begin) <= now
    ensures HoldsAt(Final(scan, cfg, t, es), k, address, now) <==> Entitled(cfg, t, Trace(scan, cfg, t, es), k, address, now)
  {
    if es != [] {
      var n := |es| - 1;
      TableMatchesTraffic(scan, cfg, t, es[..n], begin, k, address, now);
      StepHolds(scan, cfg, Final(scan, cfg, t, es[..n]), es[n], k, address, now);
      EntitledStep(cfg, t, Trace(scan, cfg, t, es[..n]), Exchange(es[n], OutcomeAt(scan, cfg, t, es, n)), k, address, now);
    }
  }

  lemma AckSays(cfg: Config, d: Datagram)
    ensures DHCP_MESSAGE_TYPE in AckOptions(cfg, d) && AckOptions(cfg, d)[DHCP_MESSAGE_TYPE] == [DHCP_TYPE_ACK]
    ensures [DHCP_TYPE_ACK] != [DHCP_TYPE_NAK]
  {
    assert [DHCP_TYPE_ACK][0] != [DHCP_TYPE_NAK][0];
  }

  /** A REQUEST asks for `address`: option 50 spells it or, without that option, it is the ciaddr. */
  predicate AsksFor(d: Datagram, address: uint32) {
    if 50 in d.options then d.options[50] == BigEndian(address, 4) else d.clientIp == address
  }

  lemma AskedAddressIsSpelled(d: Datagram, address: uint32)
    ensures AskedAddress(d) == Some(address) <==> AsksFor(d, address)
  {
    if 50 in d.options {
      SpelledWord(d.options[50], address);
    }
  }

  lemma SpelledWord(bytes: seq<byte>, word: uint32)
    ensures bytes == BigEndian(word, 4) <==> |bytes| == 4 && Word(bytes, 0) == word
  {
    if |bytes| == 4 {
      assert bytes[0..4] == bytes;
      BytesRoundTrip(bytes);
    }
    Word32RoundTrip(word);
  }

  predicate Acknowledges(o: Outcome, address: uint32) {
    Says(o, 5) && o.datagram.assignedIp == address
  }

  /** Every REQUEST is acknowledged, refused with a NAK, or dropped because its option 50 has not four bytes. */
  lemma RequestOutcome(cfg: Config, t: Table, d: Datagram, c: Clock, address: uint32)
    ensures var after := Request(cfg, t, d, c);
            && (Acknowledges(after.outcome, address) <==>
                && AsksFor(d, address) && BitAnd(address, cfg.netmask) == BitAnd(cfg.subnetAddress, cfg.netmask)
                && HoldsAt(t, d.hwAddr, address, c.purge))
            && (after.outcome == Rejected <==> 50 in d.options && |d.options[50]| != 4)
            && (after.outcome == Rejected || Says(after.outcome, 5) || Says(after.outcome, 6))
            && (!Says(after.outcome, 5) ==> Purge(after.table, c.purge) == Purge(t, c.purge))
  {
    AskedAddressIsSpelled(d, address);
    PurgeTwice(t, c.purge, c.purge);
    AckSays(cfg, d);
  }

  /** After any run, with any restarts, a REQUEST is acknowledged exactly when it asks for an address
      of the subnet to which the earlier traffic entitles the client. Every other REQUEST is refused
      with a NAK (or dropped, if its address option is malformed) and changes no live entry. */
  lemma AckIffJustified(
    scan: Scan, cfg: Config, t: Table, es: seq<Event>, begin: uint64, d: Datagram, c: Clock, address: uint32)
    requires Timed(es, begin) && LastTime(es, begin) <= c.purge
    requires Is(d, DHCP_TYPE_REQUEST)
    ensures var before := Final(scan, cfg, t, es);
            var after := Handle(scan, cfg, before, d, c);
            && (Acknowledges(after.outcome, address) <==>
                && AsksFor(d, address) && BitAnd(address, cfg.netmask) == BitAnd(cfg.subnetAddress, cfg.netmask)
                && Entitled(cfg, t, Trace(scan, cfg, t, es), d.hwAddr, address, c.purge))
            && (after.outcome == Rejected <==> 50 in d.options && |d.options[50]| != 4)
            && (after.outcome == Rejected || Says(after.outcome, 5) || Says(after.outcome, 6))
            && (!Says(after.outcome, 5) ==> Purge(after.table, c.purge) == Purge(before, c.purge))
  {
    var before := Final(scan, cfg, t, es);
    RequestOutcome(cfg, before, d, c, address);
    assert Handle(scan, cfg, before, d, c) == Request(cfg, before, d, c);
    TableMatchesTraffic(scan, cfg, t, es, begin, d.hwAddr, address, c.purge);
  }
}
