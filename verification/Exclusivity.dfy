/** Who may hold which address, over every run. */
module Exclusivity {
  import opened Wrappers
  import opened Bytes
  import opened Options
  import opened DhcpDatagram
  import opened SubnetConfig
  import opened Leases
  import opened Handlers
  import opened Runs
  import opened Justification

  predicate HasFixed(cfg: Config, k: HwAddr) {
    k[..6] in cfg.fixedHosts
  }

  /** Fixed addresses are pairwise distinct and outside the dynamic pool. */
  ghost predicate FixedApart(cfg: Config) {
    && (forall a, b :: a in cfg.fixedHosts && b in cfg.fixedHosts && a != b ==> cfg.fixedHosts[a] != cfg.fixedHosts[b])
    && (forall a :: a in cfg.fixedHosts ==> !(cfg.rangeStart <= cfg.fixedHosts[a] < cfg.rangeEnd))
  }

  /** The fixed hosts are looked up by the first `hwLen` octets, padded with zeros, but the table goes
      by the whole address. The two agree whenever six octets are used, and for clients that are
      no fixed host either way. */
  predicate EtherAgrees(cfg: Config, d: Datagram) {
    EtherOf(d) == d.hwAddr[..6] || (EtherOf(d) !in cfg.fixedHosts && !HasFixed(cfg, d.hwAddr))
  }

  /** A DISCOVER as section 4.4.1 of RFC 2131 has it, ciaddr zero, from a client that does not pass
      for another fixed host by a short address length. */
  predicate Plain(cfg: Config, e: Event) {
    e.Message? && Is(e.d, DHCP_TYPE_DISCOVER) ==> e.d.clientIp == 0 && EtherAgrees(cfg, e.d)
  }

  predicate PlainRun(cfg: Config, es: seq<Event>) {
    forall i :: 0 <= i < |es| ==> Plain(cfg, es[i])
  }

  predicate OwnAddress(cfg: Config, k: HwAddr, address: uint32) {
    if HasFixed(cfg, k) then address == cfg.fixedHosts[k[..6]] else cfg.rangeStart <= address < cfg.rangeEnd
  }

  /** Every client holds its fixed address or one from the pool. */
  ghost predicate Proper(cfg: Config, t: Table) {
    forall k :: k in t && k != ZERO_HWADDR ==> OwnAddress(cfg, k, t[k].address)
  }

  /** No two clients hold the same address, unless they are one fixed host under two names: the
      fixed address goes by the first six bytes of the 16-byte key. */
  ghost predicate Exclusive(cfg: Config, t: Table) {
    forall j, k :: j in t && k in t && j != k && j != ZERO_HWADDR && k != ZERO_HWADDR && t[j].address == t[k].address
      ==> HasFixed(cfg, j) && j[..6] == k[..6]
  }

  /** Every client in `after` already held the same address in `before`. */
  ghost predicate Inherits(after: Table, before: Table) {
    forall k :: k in after && k != ZERO_HWADDR ==> k in before && after[k].address == before[k].address
  }

  lemma InheritedStaysExclusive(cfg: Config, after: Table, before: Table)
    requires Inherits(after, before) && Proper(cfg, before) && Exclusive(cfg, before)
    ensures Proper(cfg, after) && Exclusive(cfg, after)
  {
  }

  /** Everything but a fresh pick of the DISCOVER handler only keeps addresses. */
  lemma StepInheritsOrPicks(scan: Scan, cfg: Config, t: Table, e: Event)
    requires Plain(cfg, e)
    ensures var after := Step(scan, cfg, t, e).table;
            || Inherits(after, t)
            || (&& e.Message? && Is(e.d, DHCP_TYPE_DISCOVER)
                && var live := Purge(t, e.c.purge);
                   var pick := Pick(scan, cfg, live, e.d);
                   pick.Offer? && after == live[e.d.hwAddr := Lease(pick.address, Later(e.c.stamp, OFFER_SECONDS))])
  {
    if e.Message? && Is(e.d, DHCP_TYPE_DISCOVER) {
      var live := Purge(t, e.c.purge);
      assert Step(scan, cfg, t, e) == Discover(scan, cfg, t, e.d, e.c);
      assert Inherits(live, t);
    }
  }

  /** Entering an address nobody else holds keeps the table in order. */
  lemma FreshEntryStaysExclusive(cfg: Config, t: Table, k: HwAddr, l: Lease)
    requires Proper(cfg, t) && Exclusive(cfg, t) && FixedApart(cfg)
    requires OwnAddress(cfg, k, l.address) && (HasFixed(cfg, k) || !Held(t, l.address))
    ensures Proper(cfg, t[k := l]) && Exclusive(cfg, t[k := l])
  {
  }

  lemma StepKeepsExclusive(cfg: Config, t: Table, e: Event)
    requires Plain(cfg, e) && FixedApart(cfg) && Proper(cfg, t) && Exclusive(cfg, t)
    ensures Proper(cfg, Step(Intended, cfg, t, e).table) && Exclusive(cfg, Step(Intended, cfg, t, e).table)
  {
    var after := Step(Intended, cfg, t, e).table;
    StepInheritsOrPicks(Intended, cfg, t, e);
    if Inherits(after, t) {
      InheritedStaysExclusive(cfg, after, t);
    } else {
      var live := Purge(t, e.c.purge);
      var pick := Pick(Intended, cfg, live, e.d);
      InheritedStaysExclusive(cfg, live, t);
      SearchIsComplete(live, cfg.rangeStart, cfg.rangeEnd);
      FreshEntryStaysExclusive(cfg, live, e.d.hwAddr, Lease(pick.address, Later(e.c.stamp, OFFER_SECONDS)));
    }
  }

  /** With the intended search, in every state of every run, no two clients hold one address. */
  lemma {:induction false} RunsStayExclusive(cfg: Config, t: Table, es: seq<Event>)
    requires PlainRun(cfg, es) && FixedApart(cfg) && Proper(cfg, t) && Exclusive(cfg, t)
    ensures Proper(cfg, Final(Intended, cfg, t, es)) && Exclusive(cfg, Final(Intended, cfg, t, es))
  {
    if es != [] {
      var n := |es| - 1;
      RunsStayExclusive(cfg, t, es[..n]);
      StepKeepsExclusive(cfg, Final(Intended, cfg, t, es[..n]), es[n]);
    }
  }

  /** In particular for Ethernet clients, which give all six octets. */
  lemma EthernetRunsStayExclusive(cfg: Config, t: Table, es: seq<Event>)
    requires FixedApart(cfg) && Proper(cfg, t) && Exclusive(cfg, t)
    requires forall i :: 0 <= i < |es| && es[i].Message? && Is(es[i].d, DHCP_TYPE_DISCOVER)
               ==> es[i].d.clientIp == 0 && es[i].d.hwLen >= 6
    ensures Exclusive(cfg, Final(Intended, cfg, t, es))
  {
    forall i | 0 <= i < |es|
      ensures Plain(cfg, es[i])
    {
      if es[i].Message? && es[i].d.hwLen >= 6 {
        assert EtherOf(es[i].d) == es[i].d.hwAddr[..6];
      }
    }
    RunsStayExclusive(cfg, t, es);
  }

  /** With the intended search, a client that has to be given an address from the pool goes without
      an answer exactly when every address of the pool is held by a live entry; it gets the least
      free one otherwise, and always gets one while fewer entries are live than the pool is large. */
  lemma DiscoverFailsExactlyWhen(cfg: Config, t: Table, d: Datagram, c: Clock)
    requires Is(d, DHCP_TYPE_DISCOVER) && ReachesPick(cfg, Purge(t, c.purge), d) && EtherOf(d) !in cfg.fixedHosts
    ensures var live := Purge(t, c.purge);
            var o := Handle(Intended, cfg, t, d, c).outcome;
            && (o == Silent <==> forall a :: cfg.rangeStart <= a < cfg.rangeEnd ==> Held(live, a))
            && (o != Silent ==>
                && Says(o, DHCP_TYPE_OFFER)
                && var a := o.datagram.assignedIp;
                   cfg.rangeStart <= a < cfg.rangeEnd && !Held(live, a)
                   && forall b :: cfg.rangeStart <= b < a ==> Held(live, b))
            && (|live| < cfg.rangeEnd - cfg.rangeStart ==> o != Silent)
  {
    var live := Purge(t, c.purge);
    SearchIsComplete(live, cfg.rangeStart, cfg.rangeEnd);
    if |live| < cfg.rangeEnd - cfg.rangeStart {
      SmallTableHasFreeAddress(live, cfg.rangeStart, cfg.rangeEnd);
    }
    NewClientGetsSearchResult(Intended, cfg, t, d, c);
  }

  lemma NewClientGetsSearchResult(scan: Scan, cfg: Config, t: Table, d: Datagram, c: Clock)
    requires Is(d, DHCP_TYPE_DISCOVER) && ReachesPick(cfg, Purge(t, c.purge), d) && EtherOf(d) !in cfg.fixedHosts
    ensures var found := Search(scan, Purge(t, c.purge), cfg.rangeStart, cfg.rangeEnd);
            var o := Handle(scan, cfg, t, d, c).outcome;
            if found.None? then o == Silent else Says(o, DHCP_TYPE_OFFER) && o.datagram.assignedIp == found.value
  {
    assert Handle(scan, cfg, t, d, c) == Discover(scan, cfg, t, d, c);
  }

  /** A datagram of another client leaves a live entry alone. */
  lemma OthersKeepTheirEntries(scan: Scan, cfg: Config, t: Table, d: Datagram, c: Clock, k: HwAddr, address: uint32)
    requires k != ZERO_HWADDR && d.hwAddr != k && HoldsAt(t, k, address, c.purge)
    ensures var after := Handle(scan, cfg, t, d, c).table; k in after && after[k].address == address
  {
  }

  /** What an OFFER or ACK grants is what the table then records for the client. */
  lemma GrantIsRecorded(scan: Scan, cfg: Config, t: Table, d: Datagram, c: Clock)
    ensures var after := Handle(scan, cfg, t, d, c);
            var x := Exchange(Message(d, c), after.outcome);
            Grants(x, d.hwAddr) ==> d.hwAddr in after.table && after.table[d.hwAddr] == Grant(cfg, x, d.hwAddr)
  {
    if Is(d, DHCP_TYPE_DISCOVER) {
      assert Handle(scan, cfg, t, d, c) == Discover(scan, cfg, t, d, c);
    } else if Is(d, DHCP_TYPE_REQUEST) {
      assert Handle(scan, cfg, t, d, c) == Request(cfg, t, d, c);
      assert [DHCP_TYPE_ACK][0] != [DHCP_TYPE_NAK][0];
    }
  }

  /** What one client was granted by OFFER or ACK is granted to nobody else until it runs out, or the
      client releases it or is granted something else. */
  lemma GrantedAddressIsReserved(
    cfg: Config, t: Table, es: seq<Event>, begin: uint64, d: Datagram, c: Clock, k: HwAddr, address: uint32)
    requires PlainRun(cfg, es) && FixedApart(cfg) && Proper(cfg, t) && Exclusive(cfg, t)
    requires Timed(es, begin) && LastTime(es, begin) <= c.purge && Plain(cfg, Message(d, c))
    requires k != ZERO_HWADDR && Entitled(cfg, t, Trace(Intended, cfg, t, es), k, address, c.purge)
    requires d.hwAddr != k && d.hwAddr != ZERO_HWADDR && !(HasFixed(cfg, k) && d.hwAddr[..6] == k[..6])
    ensures var x := Exchange(Message(d, c), Handle(Intended, cfg, Final(Intended, cfg, t, es), d, c).outcome);
            Grants(x, d.hwAddr) ==> Grant(cfg, x, d.hwAddr).address != address
  {
    var before := Final(Intended, cfg, t, es);
    TableMatchesTraffic(Intended, cfg, t, es, begin, k, address, c.purge);
    RunsStayExclusive(cfg, t, es);
    StepKeepsExclusive(cfg, before, Message(d, c));
    OthersKeepTheirEntries(Intended, cfg, before, d, c, k, address);
    GrantIsRecorded(Intended, cfg, before, d, c);
  }

  // ---- the loop as written ----

  /** Some other client holds the address; a fixed host under another name is not another client. */
  predicate TakenByOther(cfg: Config, t: Table, k: HwAddr, address: int) {
    exists j :: j in t && j != k && j != ZERO_HWADDR && t[j].address == address && !(HasFixed(cfg, j) && j[..6] == k[..6])
  }

  /** Entering any address at all for a client keeps addresses exclusive exactly when no other client
      holds it. */
  lemma EntryKeepsExclusivityExactlyWhen(cfg: Config, t: Table, k: HwAddr, l: Lease)
    requires Exclusive(cfg, t) && k != ZERO_HWADDR
    ensures Exclusive(cfg, t[k := l]) <==> !TakenByOther(cfg, t, k, l.address)
  {
    if j :| j in t && j != k && j != ZERO_HWADDR && t[j].address == l.address && !(HasFixed(cfg, j) && j[..6] == k[..6]) {
      var after := t[k := l];
      assert j in after && k in after && after[j].address == after[k].address;
      assert !Exclusive(cfg, after);
    } else {
      assert Exclusive(cfg, t[k := l]);
    }
  }

  /** The search settles on an address that another client holds. The intended one never does; the one as
      written does when its candidate, chosen by a look at the first entry, is held by another. */
  predicate PoolSteals(scan: Scan, cfg: Config, live: Table, k: HwAddr) {
    && scan.AsWritten? && live != map[]
    && (if live[Least(live.Keys)].address == cfg.rangeStart
        then Successor(cfg.rangeStart) < cfg.rangeEnd && TakenByOther(cfg, live, k, Successor(cfg.rangeStart))
        else cfg.rangeStart < cfg.rangeEnd && TakenByOther(cfg, live, k, cfg.rangeStart))
  }

  /** A DISCOVER that is answered with another client's address: the ciaddr, the fixed address or the
      search's candidate is held by somebody else. */
  predicate Steals(scan: Scan, cfg: Config, t: Table, e: Event) {
    && e.Message? && Is(e.d, DHCP_TYPE_DISCOVER) && e.d.hwAddr != ZERO_HWADDR
    && var live := Purge(t, e.c.purge);
       || (OffersCiaddr(cfg, live, e.d) && TakenByOther(cfg, live, e.d.hwAddr, e.d.clientIp))
       || (ReachesPick(cfg, live, e.d)
           && (if EtherOf(e.d) in cfg.fixedHosts then TakenByOther(cfg, live, e.d.hwAddr, cfg.fixedHosts[EtherOf(e.d)])
               else PoolSteals(scan, cfg, live, e.d.hwAddr)))
  }

  /** Those guards say what the handler's choice comes to. */
  lemma StealsByChoice(scan: Scan, cfg: Config, t: Table, d: Datagram, c: Clock)
    requires Exclusive(cfg, t) && Is(d, DHCP_TYPE_DISCOVER) && d.hwAddr != ZERO_HWADDR
    ensures var live := Purge(t, c.purge);
            var choice := Choose(scan, cfg, live, d, c.left);
            Steals(scan, cfg, t, Message(d, c)) <==> choice.Offer? && TakenByOther(cfg, live, d.hwAddr, choice.address)
  {
    var live := Purge(t, c.purge);
    ChoiceByGuards(scan, cfg, live, d, c.left);
    PickSteals(scan, cfg, live, d);
    assert Exclusive(cfg, live);
  }

  lemma PickSteals(scan: Scan, cfg: Config, live: Table, d: Datagram)
    ensures var pick := Pick(scan, cfg, live, d);
            pick.Offer? && TakenByOther(cfg, live, d.hwAddr, pick.address) <==>
              if EtherOf(d) in cfg.fixedHosts then TakenByOther(cfg, live, d.hwAddr, cfg.fixedHosts[EtherOf(d)])
              else PoolSteals(scan, cfg, live, d.hwAddr)
  {
    SearchIsComplete(live, cfg.rangeStart, cfg.rangeEnd);
  }

  /** Whatever the event and whichever the search, it keeps addresses exclusive exactly when it is not
      a DISCOVER that settles on the address of another client. */
  lemma StepKeepsExclusiveExactlyWhen(scan: Scan, cfg: Config, t: Table, e: Event)
    requires Exclusive(cfg, t)
    ensures Exclusive(cfg, Step(scan, cfg, t, e).table) <==> !Steals(scan, cfg, t, e)
  {
    if e.Message? && Is(e.d, DHCP_TYPE_DISCOVER) {
      DiscoverKeepsExclusiveExactlyWhen(scan, cfg, t, e.d, e.c);
    } else {
      OtherEventsInherit(scan, cfg, t, e);
    }
  }

  lemma DiscoverKeepsExclusiveExactlyWhen(scan: Scan, cfg: Config, t: Table, d: Datagram, c: Clock)
    requires Exclusive(cfg, t) && Is(d, DHCP_TYPE_DISCOVER)
    ensures Exclusive(cfg, Handle(scan, cfg, t, d, c).table) <==> !Steals(scan, cfg, t, Message(d, c))
  {
    var live := Purge(t, c.purge);
    var choice := Choose(scan, cfg, live, d, c.left);
    assert Handle(scan, cfg, t, d, c) == Discover(scan, cfg, t, d, c);
    if d.hwAddr != ZERO_HWADDR {
      StealsByChoice(scan, cfg, t, d, c);
    }
    if choice.Offer? && d.hwAddr != ZERO_HWADDR {
      EntryKeepsExclusivityExactlyWhen(cfg, live, d.hwAddr, Lease(choice.address, Later(c.stamp, OFFER_SECONDS)));
    }
  }

  lemma OtherEventsInherit(scan: Scan, cfg: Config, t: Table, e: Event)
    requires e.Message? ==> !Is(e.d, DHCP_TYPE_DISCOVER)
    ensures Inherits(Step(scan, cfg, t, e).table, t)
  {
  }

  /** No state of the run shows a clash. */
  ghost predicate ExclusiveThroughout(scan: Scan, cfg: Config, t: Table, es: seq<Event>) {
    forall n :: 0 <= n <= |es| ==> Exclusive(cfg, Final(scan, cfg, t, es[..n]))
  }

  /** A run, with either search and from any table without clashes, never shows one exactly when
      none of its DISCOVERs settles on the address of another client. */
  lemma RunStaysExclusiveExactlyWhen(scan: Scan, cfg: Config, t: Table, es: seq<Event>)
    requires Exclusive(cfg, t)
    ensures ExclusiveThroughout(scan, cfg, t, es) <==>
            forall i :: 0 <= i < |es| ==> !Steals(scan, cfg, Final(scan, cfg, t, es[..i]), es[i])
  {
    if ExclusiveThroughout(scan, cfg, t, es) {
      forall i | 0 <= i < |es|
        ensures !Steals(scan, cfg, Final(scan, cfg, t, es[..i]), es[i])
      {
        FinalNext(scan, cfg, t, es, i);
        StepKeepsExclusiveExactlyWhen(scan, cfg, Final(scan, cfg, t, es[..i]), es[i]);
      }
    }
    if forall i :: 0 <= i < |es| ==> !Steals(scan, cfg, Final(scan, cfg, t, es[..i]), es[i]) {
      forall n | 0 <= n <= |es|
        ensures Exclusive(cfg, Final(scan, cfg, t, es[..n]))
      {
        NoTheftNoClash(scan, cfg, t, es, n);
      }
    }
  }

  lemma {:induction false} NoTheftNoClash(scan: Scan, cfg: Config, t: Table, es: seq<Event>, n: nat)
    requires Exclusive(cfg, t) && n <= |es|
    requires forall i :: 0 <= i < |es| ==> !Steals(scan, cfg, Final(scan, cfg, t, es[..i]), es[i])
    ensures Exclusive(cfg, Final(scan, cfg, t, es[..n]))
  {
    if n > 0 {
      NoTheftNoClash(scan, cfg, t, es, n - 1);
      FinalNext(scan, cfg, t, es, n - 1);
      StepKeepsExclusiveExactlyWhen(scan, cfg, Final(scan, cfg, t, es[..n - 1]), es[n - 1]);
    }
  }

  /** A fixed host is offered its address whoever holds it; addresses stay exclusive exactly when
      nobody else does. */
  lemma FixedHostIsOfferedUnchecked(scan: Scan, cfg: Config, t: Table, d: Datagram, c: Clock)
    requires Is(d, DHCP_TYPE_DISCOVER) && ReachesPick(cfg, Purge(t, c.purge), d)
    requires EtherOf(d) in cfg.fixedHosts && d.hwAddr != ZERO_HWADDR && Exclusive(cfg, t)
    ensures var after := Handle(scan, cfg, t, d, c);
            var fixed := cfg.fixedHosts[EtherOf(d)];
            && Says(after.outcome, DHCP_TYPE_OFFER) && after.outcome.datagram.assignedIp == fixed
            && (Exclusive(cfg, after.table) <==> !TakenByOther(cfg, Purge(t, c.purge), d.hwAddr, fixed))
  {
    assert Handle(scan, cfg, t, d, c) == Discover(scan, cfg, t, d, c);
    DiscoverKeepsExclusiveExactlyWhen(scan, cfg, t, d, c);
  }

  /** A nonzero ciaddr is offered as it is on either of two paths, one of them without any lease of the
      sender's; addresses stay exclusive exactly when nobody else holds it. */
  lemma CiaddrIsOfferedUnchecked(scan: Scan, cfg: Config, t: Table, d: Datagram, c: Clock)
    requires Is(d, DHCP_TYPE_DISCOVER) && OffersCiaddr(cfg, Purge(t, c.purge), d)
    requires d.hwAddr != ZERO_HWADDR && Exclusive(cfg, t)
    ensures var after := Handle(scan, cfg, t, d, c);
            && Says(after.outcome, DHCP_TYPE_OFFER) && after.outcome.datagram.assignedIp == d.clientIp
            && (Exclusive(cfg, after.table) <==> !TakenByOther(cfg, Purge(t, c.purge), d.hwAddr, d.clientIp))
  {
    assert Handle(scan, cfg, t, d, c) == Discover(scan, cfg, t, d, c);
    DiscoverKeepsExclusiveExactlyWhen(scan, cfg, t, d, c);
  }

  /** The loop as written gives out an address of the pool that another client holds exactly when
      the candidate it settles on after looking at the first entry is held further down. */
  lemma AsWrittenKeepsExclusivityExactlyWhen(cfg: Config, t: Table, d: Datagram, c: Clock)
    requires Is(d, DHCP_TYPE_DISCOVER) && ReachesPick(cfg, Purge(t, c.purge), d)
    requires EtherOf(d) !in cfg.fixedHosts && d.hwAddr != ZERO_HWADDR
    requires Exclusive(cfg, t)
    ensures var live := Purge(t, c.purge);
            var (start, end) := (cfg.rangeStart, cfg.rangeEnd);
            Exclusive(cfg, Handle(AsWritten, cfg, t, d, c).table) <==>
              || live == map[]
              || (if live[Least(live.Keys)].address == start
                  then Successor(start) >= end || !TakenByOther(cfg, live, d.hwAddr, Successor(start))
                  else start >= end || !TakenByOther(cfg, live, d.hwAddr, start))
  {
    var live := Purge(t, c.purge);
    assert Handle(AsWritten, cfg, t, d, c) == Discover(AsWritten, cfg, t, d, c);
    DiscoverKeepsExclusiveExactlyWhen(AsWritten, cfg, t, d, c);
  }

  /** Every client without a fixed address holds one of the first two addresses of the range. */
  ghost predicate OneOfTwo(cfg: Config, t: Table) {
    forall k :: k in t && k != ZERO_HWADDR && !HasFixed(cfg, k)
      ==> t[k].address == cfg.rangeStart || t[k].address == Successor(cfg.rangeStart)
  }

  /** The pool of the loop as written has two addresses, however large the configured range is. */
  lemma {:induction false} AsWrittenPoolHasTwoAddresses(cfg: Config, t: Table, es: seq<Event>)
    requires PlainRun(cfg, es) && OneOfTwo(cfg, t)
    ensures OneOfTwo(cfg, Final(AsWritten, cfg, t, es))
  {
    if es != [] {
      var n := |es| - 1;
      AsWrittenPoolHasTwoAddresses(cfg, t, es[..n]);
      var before := Final(AsWritten, cfg, t, es[..n]);
      StepInheritsOrPicks(AsWritten, cfg, before, es[n]);
    }
  }

  /** So as soon as three such clients hold anything, two of them hold the same address. */
  lemma ThreeClientsClash(cfg: Config, t: Table, a: HwAddr, b: HwAddr, c: HwAddr)
    requires OneOfTwo(cfg, t) && a in t && b in t && c in t
    requires a != b && b != c && a != c && a != ZERO_HWADDR && b != ZERO_HWADDR && c != ZERO_HWADDR
    requires !HasFixed(cfg, a) && !HasFixed(cfg, b) && !HasFixed(cfg, c)
    ensures !Exclusive(cfg, t)
  {
    assert t[a].address == t[b].address || t[b].address == t[c].address || t[a].address == t[c].address;
  }

  /** A bare DISCOVER, as a client that knows nothing yet sends it. */
  predicate FirstDiscover(cfg: Config, e: Event) {
    && e.Message? && Is(e.d, DHCP_TYPE_DISCOVER) && e.d.clientIp == 0 && REQUESTED_IP_ADDRESS !in e.d.options
    && EtherOf(e.d) !in cfg.fixedHosts && !HasFixed(cfg, e.d.hwAddr) && e.d.hwAddr != ZERO_HWADDR
  }

  /** Three different such clients ask within ten seconds. */
  predicate ThreeNewClients(cfg: Config, x: Event, y: Event, z: Event) {
    && FirstDiscover(cfg, x) && FirstDiscover(cfg, y) && FirstDiscover(cfg, z)
    && x.d.hwAddr != y.d.hwAddr && y.d.hwAddr != z.d.hwAddr && x.d.hwAddr != z.d.hwAddr
    && x.c.stamp + 10 <= UINT64_MAX && y.c.stamp + 10 <= UINT64_MAX && z.c.stamp + 10 <= UINT64_MAX
    && y.c.purge < x.c.stamp + 10 && z.c.purge < x.c.stamp + 10 && z.c.purge < y.c.stamp + 10
  }

  /** And that happens: three new clients that ask within ten seconds of an empty daemon, whose range
      has room for many, are enough. */
  lemma ThreeDiscoversClash(cfg: Config, x: Event, y: Event, z: Event)
    requires cfg.rangeStart + 1 < cfg.rangeEnd && ThreeNewClients(cfg, x, y, z)
    ensures !Exclusive(cfg, Final(AsWritten, cfg, map[], [x, y, z]))
  {
    var final := Final(AsWritten, cfg, map[], [x, y, z]);
    assert OneOfTwo(cfg, final) by {
      AsWrittenPoolHasTwoAddresses(cfg, map[], [x, y, z]);
    }
    assert x.d.hwAddr in final && y.d.hwAddr in final && z.d.hwAddr in final by {
      ThreeDiscoversEnter(cfg, x, y, z);
      FinalOfThree(AsWritten, cfg, map[], x, y, z);
    }
    ThreeClientsClash(cfg, final, x.d.hwAddr, y.d.hwAddr, z.d.hwAddr);
  }

  lemma ThreeDiscoversEnter(cfg: Config, x: Event, y: Event, z: Event)
    requires cfg.rangeStart + 1 < cfg.rangeEnd && ThreeNewClients(cfg, x, y, z)
    ensures var t2 := Step(AsWritten, cfg, Step(AsWritten, cfg, map[], x).table, y).table;
            var t3 := Step(AsWritten, cfg, t2, z).table;
            x.d.hwAddr in t3 && y.d.hwAddr in t3 && z.d.hwAddr in t3
  {
    var t1 := Step(AsWritten, cfg, map[], x).table;
    var t2 := Step(AsWritten, cfg, t1, y).table;
    var t3 := Step(AsWritten, cfg, t2, z).table;
    FirstDiscoverEnters(cfg, map[], x);
    FirstDiscoverEnters(cfg, t1, y);
    FirstDiscoverEnters(cfg, t2, z);
    ThreeEnter(map[], x, y, z, t1, t2, t3);
  }

  lemma FinalOfThree(scan: Scan, cfg: Config, t: Table, x: Event, y: Event, z: Event)
    ensures Final(scan, cfg, t, [x, y, z]) ==
            Step(scan, cfg, Step(scan, cfg, Step(scan, cfg, t, x).table, y).table, z).table
  {
    assert [x, y, z][..2] == [x, y] && [x, y][..1] == [x] && [x][..0] == [];
    assert Final(scan, cfg, t, [x]) == Step(scan, cfg, Final(scan, cfg, t, []), x).table;
    assert Final(scan, cfg, t, [x, y]) == Step(scan, cfg, Final(scan, cfg, t, [x]), y).table;
  }

  /** The client is in the new table for ten seconds, and nobody who was live is gone. */
  ghost predicate StaysWith(t: Table, e: Event, after: Table)
    requires e.Message?
  {
    && e.d.hwAddr in after && after[e.d.hwAddr].expiry == e.c.stamp + 10
    && forall k :: k in t && k != e.d.hwAddr && t[k].expiry > e.c.purge ==> k in after && after[k] == t[k]
  }

  lemma FirstDiscoverEnters(cfg: Config, t: Table, e: Event)
    requires cfg.rangeStart + 1 < cfg.rangeEnd && FirstDiscover(cfg, e) && e.c.stamp + 10 <= UINT64_MAX
    ensures StaysWith(t, e, Step(AsWritten, cfg, t, e).table)
  {
    assert Step(AsWritten, cfg, t, e) == Discover(AsWritten, cfg, t, e.d, e.c);
  }

  lemma ThreeEnter(t: Table, x: Event, y: Event, z: Event, t1: Table, t2: Table, t3: Table)
    requires x.Message? && y.Message? && z.Message?
    requires StaysWith(t, x, t1) && StaysWith(t1, y, t2) && StaysWith(t2, z, t3)
    requires x.d.hwAddr != y.d.hwAddr && y.d.hwAddr != z.d.hwAddr && x.d.hwAddr != z.d.hwAddr
    requires y.c.purge < x.c.stamp + 10 && z.c.purge < x.c.stamp + 10 && z.c.purge < y.c.stamp + 10
    ensures x.d.hwAddr in t3 && y.d.hwAddr in t3 && z.d.hwAddr in t3
  {
  }
}
