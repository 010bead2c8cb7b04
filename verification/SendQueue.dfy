/** The reply queue of src/socket.cpp and the drain phase of src/epoll.hpp that empties it. */
module SendQueue {
  /** What `sendto` answers. `HardError` is every errno but EWOULDBLOCK. */
  datatype SendResult = Ok | HardError | WouldBlock

  /** A reply that left the queue: it went out, or it was dropped. */
  datatype Settled<D> = Sent(datagram: D) | Dropped(datagram: D)

  function Datagrams<D>(settled: seq<Settled<D>>): seq<D> {
    seq(|settled|, i requires 0 <= i < |settled| => settled[i].datagram)
  }

  /** The queue and the replies settled so far, after one `sendto` of the front. */
  function QueueAfter<D>(queue: seq<D>, result: SendResult): seq<D>
    requires queue != []
  {
    if result.WouldBlock? then queue else queue[1..]
  }

  function SettledAfter<D>(queue: seq<D>, settled: seq<Settled<D>>, result: SendResult): seq<Settled<D>>
    requires queue != []
  {
    match result
    case Ok => settled + [Sent(queue[0])]
    case HardError => settled + [Dropped(queue[0])]
    case WouldBlock => settled
  }

  /** Nothing is lost, duplicated or reordered: what was enqueued is what was settled, in order,
      followed by what still waits. */
  ghost predicate Conserved<D>(enqueued: seq<D>, settled: seq<Settled<D>>, queue: seq<D>) {
    enqueued == Datagrams(settled) + queue
  }

  lemma AttemptConserves<D>(enqueued: seq<D>, settled: seq<Settled<D>>, queue: seq<D>, result: SendResult)
    requires Conserved(enqueued, settled, queue) && queue != []
    ensures Conserved(enqueued, SettledAfter(queue, settled, result), QueueAfter(queue, result))
  {
    var after := SettledAfter(queue, settled, result);
    if !result.WouldBlock? {
      assert Datagrams(after) == Datagrams(settled) + [queue[0]];
      assert queue == [queue[0]] + queue[1..];
    }
  }

  lemma EnqueueConserves<D>(enqueued: seq<D>, settled: seq<Settled<D>>, queue: seq<D>, datagram: D)
    requires Conserved(enqueued, settled, queue)
    ensures Conserved(enqueued + [datagram], settled, queue + [datagram])
  {
  }

  class Socket<D(==)> {
    var sendQueue: seq<D>
    ghost var enqueued: seq<D>
    ghost var settled: seq<Settled<D>>

    ghost predicate Valid()
      reads this
    {
      Conserved(enqueued, settled, sendQueue)
    }

    constructor ()
      ensures Valid() && sendQueue == [] && enqueued == [] && settled == []
    {
      sendQueue, enqueued, settled := [], [], [];
    }

    method EnqueueDatagram(datagram: D)
      requires Valid()
      modifies this
      ensures Valid() && settled == old(settled)
      ensures sendQueue == old(sendQueue) + [datagram] && enqueued == old(enqueued) + [datagram]
    {
      sendQueue := sendQueue + [datagram];
      enqueued := enqueued + [datagram];
    }

    method HasWaitingMessages() returns (b: bool)
      ensures b <==> sendQueue != []
    {
      b := |sendQueue| > 0;
    }

    /** `handle_epollout`: one `sendto` for the front of the queue. */
    method HandleEpollout(result: SendResult) returns (wouldBlock: bool)
      requires Valid()
      modifies this
      ensures Valid() && enqueued == old(enqueued)
      ensures wouldBlock <==> old(sendQueue) != [] && result.WouldBlock?
      ensures if old(sendQueue) == [] then sendQueue == [] && settled == old(settled)
              else sendQueue == QueueAfter(old(sendQueue), result) && settled == SettledAfter(old(sendQueue), old(settled), result)
    {
      if sendQueue == [] {
        return false;
      }
      AttemptConserves(enqueued, settled, sendQueue, result);
      settled := SettledAfter(sendQueue, settled, result);
      if result.WouldBlock? {
        return true;
      }
      sendQueue := sendQueue[1..];
      wouldBlock := false;
    }
  }

  /** A drain phase: the queue and the settled replies it leaves, the number of `sendto` calls it
      has made, and whether the last of them would have blocked. */
  datatype DrainResult<D> = DrainResult(queue: seq<D>, settled: seq<Settled<D>>, calls: nat, blocked: bool)

  ghost function DrainFrom<D>(queue: seq<D>, settled: seq<Settled<D>>, results: nat -> SendResult, calls: nat): DrainResult<D>
    decreases |queue|
  {
    if queue == [] then DrainResult(queue, settled, calls, false)
    else if results(calls).WouldBlock? then DrainResult(queue, settled, calls + 1, true)
    else DrainFrom(queue[1..], SettledAfter(queue, settled, results(calls)), results, calls + 1)
  }

  /** How many calls of the phase settled a reply. */
  ghost function SettledCalls<D>(r: DrainResult<D>, calls: nat): int {
    r.calls - calls - if r.blocked then 1 else 0
  }

  /** A drain phase takes replies from the front of the queue, one for each call that does not
      block, until the queue is empty or a call would block. */
  lemma {:induction false} DrainStopsWhen<D>(queue: seq<D>, settled: seq<Settled<D>>, results: nat -> SendResult, calls: nat)
    ensures var r := DrainFrom(queue, settled, results, calls);
            var n := SettledCalls(r, calls);
            && 0 <= n <= |queue| && r.queue == queue[n..]
            && (r.blocked <==> r.queue != [])
            && (r.blocked ==> results(calls + n).WouldBlock?)
            && forall i :: calls <= i < calls + n ==> !results(i).WouldBlock?
    decreases |queue|
  {
    if queue != [] && !results(calls).WouldBlock? {
      DrainStopsWhen(queue[1..], SettledAfter(queue, settled, results(calls)), results, calls + 1);
    }
  }

  /** The fates of the replies in `queue`, decided by the calls from number `calls` on. */
  ghost function Fates<D>(queue: seq<D>, results: nat -> SendResult, calls: nat): (f: seq<Settled<D>>)
    ensures |f| == |queue|
    ensures forall i :: 0 <= i < |queue| ==> f[i] == if results(calls + i).Ok? then Sent(queue[i]) else Dropped(queue[i])
  {
    seq(|queue|, i requires 0 <= i < |queue| => if results(calls + i).Ok? then Sent(queue[i]) else Dropped(queue[i]))
  }

  /** Each settled reply has the fate its own `sendto` call decided, in queue order. */
  lemma {:induction false} DrainSettlesInOrder<D>(queue: seq<D>, settled: seq<Settled<D>>, results: nat -> SendResult, calls: nat)
    ensures var r := DrainFrom(queue, settled, results, calls);
            var n := SettledCalls(r, calls);
            0 <= n <= |queue| && r.settled == settled + Fates(queue[..n], results, calls)
    decreases |queue|
  {
    if queue == [] || results(calls).WouldBlock? {
      assert settled + Fates(queue[..0], results, calls) == settled;
    } else {
      var next := SettledAfter(queue, settled, results(calls));
      DrainSettlesInOrder(queue[1..], next, results, calls + 1);
      var n := SettledCalls(DrainFrom(queue, settled, results, calls), calls);
      FatesCons(queue, n, results, calls);
      AppendTwice(settled, next[|settled|], Fates(queue[1..][..n - 1], results, calls + 1));
    }
  }

  lemma AppendTwice<T>(s: seq<T>, x: T, t: seq<T>)
    ensures (s + [x]) + t == s + ([x] + t)
  {
  }

  lemma FatesCons<D>(queue: seq<D>, n: nat, results: nat -> SendResult, calls: nat)
    requires 0 < n <= |queue|
    ensures Fates(queue[..n], results, calls) ==
            [if results(calls).Ok? then Sent(queue[0]) else Dropped(queue[0])] + Fates(queue[1..][..n - 1], results, calls + 1)
  {
    var rest := Fates(queue[1..][..n - 1], results, calls + 1);
    forall i | 0 < i < n
      ensures Fates(queue[..n], results, calls)[i] == rest[i - 1]
    {
      assert calls + i == calls + 1 + (i - 1);
    }
  }

  class Epoll<D(==)> {
    const subject: Socket<D>
    var readyToSend: bool

    constructor (subject: Socket<D>)
      ensures this.subject == subject && !readyToSend
    {
      this.subject := subject;
      readyToSend := false;
    }

    /** The part of `poll_loop` in front of `epoll_wait`. `results` answers the successive `sendto`
        calls. The phase always ends, and leaves `readyToSend` set only with an empty queue. */
    method DrainPhase(results: nat -> SendResult) returns (calls: nat)
      requires subject.Valid()
      modifies this, subject
      ensures subject.Valid() && subject.enqueued == old(subject.enqueued)
      ensures old(readyToSend) ==>
                DrainFrom(old(subject.sendQueue), old(subject.settled), results, 0)
                == DrainResult(subject.sendQueue, subject.settled, calls, !readyToSend)
      ensures !old(readyToSend) ==>
                calls == 0 && !readyToSend && subject.sendQueue == old(subject.sendQueue) && subject.settled == old(subject.settled)
      ensures readyToSend ==> subject.sendQueue == []
    {
      calls := 0;
      if readyToSend {
        ghost var goal := DrainFrom(subject.sendQueue, subject.settled, results, 0);
        var wouldBlock := false;
        var waiting := subject.HasWaitingMessages();
        while waiting && !wouldBlock
          invariant subject.Valid() && subject.enqueued == old(subject.enqueued) && readyToSend
          invariant waiting <==> subject.sendQueue != []
          invariant !wouldBlock ==> DrainFrom(subject.sendQueue, subject.settled, results, calls) == goal
          invariant wouldBlock ==> DrainResult(subject.sendQueue, subject.settled, calls, true) == goal
          decreases |subject.sendQueue|, !wouldBlock
        {
          wouldBlock := subject.HandleEpollout(results(calls));
          calls := calls + 1;
          waiting := subject.HasWaitingMessages();
        }
        if wouldBlock {
          readyToSend := false;
        }
      }
    }
  }
}
