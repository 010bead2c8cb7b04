/** Lazy expiry and restarts cannot be seen from the network. */
module Invisibility {
  import opened Bytes
  import opened SubnetConfig
  import opened DhcpDatagram
  import opened Leases
  import opened Handlers
  import opened Runs

  /** The tables have the same entries with `expiry > now`. */
  predicate Agree(a: Table, b: Table, now: uint64) {
    Purge(a, now) == Purge(b, now)
  }

  lemma AgreeLater(a: Table, b: Table, now: uint64, later: uint64)
    requires Agree(a, b, now) && now <= later
    ensures Agree(a, b, later)
  {
    PurgeTwice(a, now, later);
    PurgeTwice(b, now, later);
  }

  lemma AgreeUpdate(a: Table, b: Table, now: uint64, k: HwAddr, l: Lease)
    requires Agree(a, b, now)
    ensures Agree(a[k := l], b[k := l], now)
  {
    PurgeUpdate(a, now, k, l);
    PurgeUpdate(b, now, k, l);
  }

  lemma PurgeUpdate(t: Table, now: uint64, k: HwAddr, l: Lease)
    ensures Purge(t[k := l], now) == if l.expiry > now then Purge(t, now)[k := l] else Purge(t, now) - {k}
  {
  }

  lemma AgreeErase(a: Table, b: Table, now: uint64, k: HwAddr)
    requires Agree(a, b, now)
    ensures Agree(a - {k}, b - {k}, now)
  {
    assert Purge(a - {k}, now) == Purge(a, now) - {k};
    assert Purge(b - {k}, now) == Purge(b, now) - {k};
  }

  /** One datagram, handled with two tables that agree when it arrives. */
  lemma HandleAgrees(scan: Scan, cfg: Config, a: Table, b: Table, d: Datagram, c: Clock)
    requires Agree(a, b, c.purge)
    ensures Handle(scan, cfg, a, d, c).outcome == Handle(scan, cfg, b, d, c).outcome
    ensures Agree(Handle(scan, cfg, a, d, c).table, Handle(scan, cfg, b, d, c).table, c.purge)
  {
    if d.opcode == 1 && HasType(d) {
      if Is(d, DHCP_TYPE_RELEASE) {
        AgreeErase(a, b, c.purge, d.hwAddr);
      } else if Is(d, DHCP_TYPE_DISCOVER) {
        assert Discover(scan, cfg, a, d, c) == Discover(scan, cfg, b, d, c);
      } else if Is(d, DHCP_TYPE_DECLINE) && Decline(a, d).outcome.Silent? {
        AgreeUpdate(a, b, c.purge, ZERO_HWADDR, Decline(a, d).table[ZERO_HWADDR]);
      }
    }
  }

  lemma RestartAgrees(t: Table, written: uint64, loaded: uint64)
    requires written <= loaded
    ensures Agree(Reload(t, written, loaded), t, loaded)
  {
  }

  /** The run without its restarts. */
  function Messages(es: seq<Event>): seq<Event> {
    if es == [] then []
    else
      var n := |es| - 1;
      Messages(es[..n]) + (if es[n].Message? then [es[n]] else [])
  }

  /** Two daemons whose tables agree on the live entries, one of which is restarted any number of
      times while the other keeps running, answer every later datagram alike. */
  lemma {:induction false} RunsAgree(scan: Scan, cfg: Config, a: Table, b: Table, es: seq<Event>, begin: uint64)
    requires Timed(es, begin) && Agree(a, b, begin)
    ensures Outcomes(scan, cfg, a, es) == Outcomes(scan, cfg, b, Messages(es))
    ensures Agree(Final(scan, cfg, a, es), Final(scan, cfg, b, Messages(es)), LastTime(es, begin))
  {
    if es != [] {
      var n := |es| - 1;
      var ms := Messages(es[..n]);
      RunsAgree(scan, cfg, a, b, es[..n], begin);
      var ta, tb := Final(scan, cfg, a, es[..n]), Final(scan, cfg, b, ms);
      AgreeLater(ta, tb, LastTime(es[..n], begin), es[n].Start());
      match es[n]
      case Message(d, c) =>
        HandleAgrees(scan, cfg, ta, tb, d, c);
        AgreeLater(Handle(scan, cfg, ta, d, c).table, Handle(scan, cfg, tb, d, c).table, c.purge, c.stamp);
        assert (ms + [es[n]])[..|ms|] == ms;
      case Restart(written, loaded) =>
        RestartAgrees(ta, written, loaded);
        AgreeLater(ta, tb, written, loaded);
        assert ms + [] == ms;
    }
  }

  /** Restarts are invisible: erasing them from a run changes no reply. */
  lemma RestartsAreInvisible(scan: Scan, cfg: Config, t: Table, es: seq<Event>, begin: uint64)
    requires Timed(es, begin)
    ensures Outcomes(scan, cfg, t, es) == Outcomes(scan, cfg, t, Messages(es))
  {
    RunsAgree(scan, cfg, t, t, es, begin);
  }

  /** Lazy expiry is invisible: throwing out the expired entries right away changes no reply. */
  lemma LazyExpiryIsInvisible(scan: Scan, cfg: Config, t: Table, es: seq<Event>, begin: uint64)
    requires Timed(es, begin)
    ensures Outcomes(scan, cfg, Purge(t, begin), es) == Outcomes(scan, cfg, t, es)
  {
    PurgeTwice(t, begin, begin);
    RunsAgree(scan, cfg, Purge(t, begin), t, es, begin);
    RestartsAreInvisible(scan, cfg, t, es, begin);
  }
}
