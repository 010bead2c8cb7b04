/** Whole runs of the daemon: any sequence of datagrams, interleaved with shutdowns that write the
    lease file and starts that read it. A `Crashed` outcome ends the process; runs in which
    something follows one are included but claim nothing about the program. */
module Runs {
  import opened Bytes
  import opened DhcpDatagram
  import opened SubnetConfig
  import opened Leases
  import opened Handlers

  datatype Event =
    | Message(d: Datagram, c: Clock)
    | Restart(written: uint64, loaded: uint64)
  {
    function Start(): uint64 {
      if Message? then c.purge else written
    }

    function End(): uint64 {
      if Message? then c.stamp else loaded
    }

    predicate Ordered() {
      if Message? then c.Ordered() else written <= loaded
    }
  }

  /** What a lease file written at `written` holds when it is read at `loaded`: writing purges with
      `expiry <= now`, reading skips with `expiry < now`. */
  function Reload(t: Table, written: uint64, loaded: uint64): Table {
    map k | k in t && t[k].expiry > written && t[k].expiry >= loaded :: t[k]
  }

  function Step(scan: Scan, cfg: Config, t: Table, e: Event): Effect {
    match e
    case Message(d, c) => Handle(scan, cfg, t, d, c)
    case Restart(written, loaded) => Effect(Reload(t, written, loaded), Silent)
  }

  /** A restart keeps exactly the entries that outlive the writing and have not run out before the
      reading, one that runs out in that very second included. */
  lemma RestartKeeps(scan: Scan, cfg: Config, t: Table, written: uint64, loaded: uint64, k: HwAddr)
    ensures var e := Step(scan, cfg, t, Restart(written, loaded));
            && e.outcome == Silent
            && (k in e.table <==> k in t && t[k].expiry > written && t[k].expiry >= loaded)
            && (k in e.table ==> e.table[k] == t[k])
  {
  }

  /** The table after the events of a run that starts from table `t`. */
  function Final(scan: Scan, cfg: Config, t: Table, es: seq<Event>): Table {
    if es == [] then t else Step(scan, cfg, Final(scan, cfg, t, es[..|es| - 1]), es[|es| - 1]).table
  }

  lemma FinalNext(scan: Scan, cfg: Config, t: Table, es: seq<Event>, i: nat)
    requires i < |es|
    ensures Final(scan, cfg, t, es[..i + 1]) == Step(scan, cfg, Final(scan, cfg, t, es[..i]), es[i]).table
  {
    assert es[..i + 1][..i] == es[..i];
  }

  function OutcomeAt(scan: Scan, cfg: Config, t: Table, es: seq<Event>, i: nat): Outcome
    requires i < |es|
  {
    Step(scan, cfg, Final(scan, cfg, t, es[..i]), es[i]).outcome
  }

  /** What the network sees: one outcome for every datagram. */
  function Outcomes(scan: Scan, cfg: Config, t: Table, es: seq<Event>): seq<Outcome> {
    if es == [] then []
    else
      var n := |es| - 1;
      Outcomes(scan, cfg, t, es[..n]) + (if es[n].Message? then [OutcomeAt(scan, cfg, t, es, n)] else [])
  }

  function Sent(o: Outcome): seq<Datagram> {
    if o.Reply? then [o.datagram] else []
  }

  /** The datagrams among the outcomes: what is handed to the socket. */
  function Replies(os: seq<Outcome>): seq<Datagram> {
    if os == [] then [] else Replies(os[..|os| - 1]) + Sent(os[|os| - 1])
  }

  /** Outcome by outcome: a reply is handed on once, at the end, and nothing else is. */
  lemma RepliesInOrder(os: seq<Outcome>, o: Outcome)
    ensures Replies([]) == []
    ensures Replies(os + [o]) == if o.Reply? then Replies(os) + [o.datagram] else Replies(os)
  {
    assert (os + [o])[..|os|] == os;
    assert Replies(os) + [] == Replies(os);
  }

  /** All replies of a run. */
  function RunReplies(scan: Scan, cfg: Config, t: Table, es: seq<Event>): seq<Datagram> {
    Replies(Outcomes(scan, cfg, t, es))
  }

  /** One more event adds its reply, if it has one. */
  lemma RunRepliesGrow(scan: Scan, cfg: Config, t: Table, es: seq<Event>, e: Event)
    ensures Final(scan, cfg, t, es + [e]) == Step(scan, cfg, Final(scan, cfg, t, es), e).table
    ensures RunReplies(scan, cfg, t, es + [e]) ==
            RunReplies(scan, cfg, t, es) + Sent(Step(scan, cfg, Final(scan, cfg, t, es), e).outcome)
  {
    var longer := es + [e];
    assert longer[..|longer| - 1] == es;
    var os := Outcomes(scan, cfg, t, es);
    var o := OutcomeAt(scan, cfg, t, longer, |es|);
    assert (os + [o])[..|os|] == os;
    assert os + [] == os;
  }

  function LastTime(es: seq<Event>, begin: uint64): uint64 {
    if es == [] then begin else es[|es| - 1].End()
  }

  /** All clock readings of the run, from `begin` on, are in nondecreasing order. */
  predicate Timed(es: seq<Event>, begin: uint64) {
    es == [] ||
    var n := |es| - 1;
    Timed(es[..n], begin) && LastTime(es[..n], begin) <= es[n].Start() && es[n].Ordered()
  }

  /** Event number `i` begins no earlier than the one before it ended, and its own readings are in order. */
  predicate TimedAt(es: seq<Event>, begin: uint64, i: nat)
    requires i < |es|
  {
    && (if i == 0 then begin else es[i - 1].End()) <= es[i].Start()
    && (match es[i]
        case Message(_, c) => es[i].Start() == c.purge <= c.left <= c.stamp == es[i].End()
        case Restart(written, loaded) => es[i].Start() == written <= loaded == es[i].End())
  }

  lemma {:induction false} TimedPointwise(es: seq<Event>, begin: uint64)
    ensures Timed(es, begin) <==> forall i :: 0 <= i < |es| ==> TimedAt(es, begin, i)
    decreases |es|
  {
    if es != [] {
      var n := |es| - 1;
      TimedPointwise(es[..n], begin);
      assert forall i :: 0 <= i < n ==> (TimedAt(es, begin, i) <==> TimedAt(es[..n], begin, i));
      assert n > 0 ==> es[..n][n - 1] == es[n - 1];
      assert LastTime(es[..n], begin) <= es[n].Start() && es[n].Ordered() <==> TimedAt(es, begin, n);
    }
  }
}
