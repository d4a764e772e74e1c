/**
 * The body of `await_calls`, run over a finite trace of what `accept`, `recv` and the two
 * allocations (the MESSAGE struct and, inside `add_message`, the queue node) returned on
 * each turn of the loop. Closing a connection is recorded as an event; a message that is
 * built is handed to the queue, and the loop returns right after handing over a message
 * that carries the sentinel.
 */
module Acceptor {
  import opened Wrappers
  import opened CStrings
  import opened Io
  import opened Messages
  import opened MessageQueue

  /** MAX_MESSAGE_SIZE: the receive buffer, one byte of which is kept for the NUL. */
  const MaxMessageSize: nat := 1024

  /**
   * What `recv` does on a fresh connection: fail (-1), or deliver what the peer has sent,
   * of which at most MaxMessageSize - 1 bytes fit (nothing when the peer closed first).
   */
  datatype RecvOutcome = RecvError | Delivered(pending: seq<char>)

  /** One turn of the accept loop. */
  datatype Attempt =
    | AcceptFailed
    | Accepted(fd: int, recv: RecvOutcome, messageAllocated: bool, nodeAllocated: bool)

  /** How many of the pending bytes fit into the buffer: at most MaxMessageSize - 1. */
  function ReceivedLength(pending: seq<char>): (n: nat)
    ensures n <= |pending| && n < MaxMessageSize
    ensures n < MaxMessageSize - 1 ==> n == |pending|
  {
    if |pending| < MaxMessageSize then |pending| else MaxMessageSize - 1
  }

  /** The value `recv(nfd, message, sizeof(message) - 1, 0)` returns. */
  function BytesReceived(r: RecvOutcome): (n: int)
    ensures -1 <= n < MaxMessageSize
    ensures n == -1 <==> r.RecvError?
    ensures n == 0 <==> r == Delivered([])
    ensures r.Delivered? ==> n == ReceivedLength(r.pending)
  {
    match r
    case RecvError => -1
    case Delivered(p) => ReceivedLength(p)
  }

  /**
   * The text of a message built from a delivered buffer: the received bytes, at most
   * MaxMessageSize - 1 of them, up to the first NUL.
   */
  function ReceivedText(pending: seq<char>): (text: string)
    ensures |text| < MaxMessageSize
  {
    CString(pending[..ReceivedLength(pending)])
  }

  /**
   * The text is a prefix of the (at most MaxMessageSize - 1) received bytes, holds no NUL,
   * and stops either at the end of what was received or at the first NUL in it.
   */
  lemma ReceivedTextIsCString(pending: seq<char>)
    ensures var n, text := ReceivedLength(pending), ReceivedText(pending);
            text <= pending[..n] && NUL !in text && (|text| == n || pending[|text|] == NUL)
  {
  }

  /** The MESSAGE the turn fills in, if it gets that far. */
  function Built(a: Attempt): (m: Option<Message>)
  {
    if a.Accepted? && BytesReceived(a.recv) > 0 && a.messageAllocated
    then Some(Message(a.fd, ReceivedText(a.recv.pending)))
    else None
  }

  /** What the turn appends to the queue. */
  function Queued(a: Attempt): seq<Message>
  {
    if Built(a).Some? && a.nodeAllocated then [Built(a).value] else []
  }

  /** What the turn closes itself. */
  function Closes(a: Attempt): seq<Event>
  {
    if a.Accepted? && (BytesReceived(a.recv) <= 0 || !a.messageAllocated) then [Close(a.fd)] else []
  }

  /** The descriptor of a message lost because its queue node could not be allocated. */
  function Leaked(a: Attempt): seq<int>
  {
    if Built(a).Some? && !a.nodeAllocated then [a.fd] else []
  }

  /** The turn ends the loop: it built a message whose text carries the sentinel. */
  predicate Stops(a: Attempt)
  {
    Built(a).Some? && IsStop(Built(a).value)
  }

  /**
   * A recv result of -1 or 0 closes the connection and queues nothing; a positive one
   * with a MESSAGE allocated hands over a message tagged with the accepted descriptor.
   */
  lemma AttemptOutcome(a: Attempt)
    requires a.Accepted?
    ensures BytesReceived(a.recv) <= 0 ==> Closes(a) == [Close(a.fd)] && Queued(a) == [] && !Stops(a)
    ensures BytesReceived(a.recv) > 0 && a.messageAllocated ==>
              Closes(a) == [] &&
              Queued(a) == (if a.nodeAllocated then [Message(a.fd, ReceivedText(a.recv.pending))] else [])
  {
  }

  /** The position of the first turn that carries the sentinel, or `|t|`. */
  function FirstStopAttempt(t: seq<Attempt>): (k: nat)
    ensures k <= |t|
    ensures k < |t| ==> Stops(t[k])
    ensures forall i :: 0 <= i < k ==> !Stops(t[i])
  {
    if t == [] then 0 else if Stops(t[0]) then 0 else 1 + FirstStopAttempt(t[1..])
  }

  /** A turn no later than the first sentinel turn carries the sentinel exactly when it is that turn. */
  lemma FirstStopAttemptAt(t: seq<Attempt>, k: nat)
    requires k <= FirstStopAttempt(t) && k < |t|
    ensures Stops(t[k]) <==> k == FirstStopAttempt(t)
  {
  }

  /** How many turns the loop runs: through the first sentinel, or the whole trace. */
  function Consumed(t: seq<Attempt>): nat
  {
    if FirstStopAttempt(t) < |t| then FirstStopAttempt(t) + 1 else |t|
  }

  /** The messages the first `n` turns queue, in order. */
  function QueuedBy(t: seq<Attempt>, n: nat): seq<Message>
    requires n <= |t|
  {
    if n == 0 then [] else QueuedBy(t, n - 1) + Queued(t[n - 1])
  }

  /** The closes the first `n` turns perform, in order. */
  function ClosedBy(t: seq<Attempt>, n: nat): seq<Event>
    requires n <= |t|
  {
    if n == 0 then [] else ClosedBy(t, n - 1) + Closes(t[n - 1])
  }

  /** The descriptors the first `n` turns lose, in order. */
  function LeakedBy(t: seq<Attempt>, n: nat): seq<int>
    requires n <= |t|
  {
    if n == 0 then [] else LeakedBy(t, n - 1) + Leaked(t[n - 1])
  }

  /** The descriptors `accept` handed out in the first `n` turns, in order. */
  function AcceptedBy(t: seq<Attempt>, n: nat): seq<int>
    requires n <= |t|
  {
    if n == 0 then [] else AcceptedBy(t, n - 1) + (if t[n - 1].Accepted? then [t[n - 1].fd] else [])
  }

  /**
   * One turn of `await_calls` after `accept`: close the connection when recv returns -1
   * or 0 or the MESSAGE cannot be allocated; otherwise NUL-terminate the received bytes,
   * tag them with the descriptor and queue the message. `stop` tells whether the text
   * carries the sentinel.
   */
  method Turn(q: Queue, attempt: Attempt) returns (closed: seq<Event>, stop: bool)
    requires q.Valid()
    modifies q.Repr
    ensures q.Valid() && fresh(q.Repr - old(q.Repr))
    ensures q.Contents == old(q.Contents) + Queued(attempt)
    ensures closed == Closes(attempt) && stop == Stops(attempt)
  {
    closed, stop := [], false;
    if attempt.AcceptFailed? {
      return;
    }
    var nfd := attempt.fd;
    var bytesReceived := BytesReceived(attempt.recv);
    if bytesReceived == -1 {
      closed := [Close(nfd)];
      return;
    }
    if bytesReceived == 0 {
      closed := [Close(nfd)];
      return;
    }
    assert bytesReceived == ReceivedLength(attempt.recv.pending);
    var received := attempt.recv.pending[..bytesReceived];
    var buffer := received + [NUL];
    if !attempt.messageAllocated {
      closed := [Close(nfd)];
      return;
    }
    CStringTerminated(received);
    var m := Message(nfd, CString(buffer));
    assert Built(attempt) == Some(m);
    q.Add(m, attempt.nodeAllocated);
    stop := Contains(m.text, StopMarker);
  }

  /**
   * `await_calls`: run turns until one hands over a message carrying the sentinel, and
   * return right after it; `stopped` is false when the trace runs out first.
   */
  method AwaitCalls(q: Queue, trace: seq<Attempt>) returns (events: seq<Event>, consumed: nat, stopped: bool)
    requires q.Valid()
    modifies q.Repr
    ensures q.Valid() && fresh(q.Repr - old(q.Repr))
    ensures consumed == Consumed(trace)
    ensures stopped == (FirstStopAttempt(trace) < |trace|)
    ensures q.Contents == old(q.Contents) + QueuedBy(trace, consumed)
    ensures events == ClosedBy(trace, consumed)
  {
    events, consumed, stopped := [], 0, false;
    ghost var queued: seq<Message> := [];
    while consumed < |trace|
      invariant consumed <= |trace|
      invariant consumed <= FirstStopAttempt(trace)
      invariant q.Valid() && fresh(q.Repr - old(q.Repr))
      invariant q.Contents == old(q.Contents) + queued
      invariant queued == QueuedBy(trace, consumed) && events == ClosedBy(trace, consumed)
    {
      var closed, stop := Turn(q, trace[consumed]);
      FirstStopAttemptAt(trace, consumed);
      events := events + closed;
      queued := queued + Queued(trace[consumed]);
      if stop {
        consumed, stopped := consumed + 1, true;
        return;
      }
      consumed := consumed + 1;
    }
  }

  lemma AttemptAccountsForConnection(a: Attempt)
    ensures multiset(ClosedFds(Closes(a))) + multiset(Callers(Queued(a))) + multiset(Leaked(a))
            == multiset(if a.Accepted? then [a.fd] else [])
  {
    if a.Accepted? {
      if BytesReceived(a.recv) <= 0 || !a.messageAllocated {
        assert ClosedFds(Closes(a)) == [a.fd];
      } else if a.nodeAllocated {
        assert Callers(Queued(a)) == [a.fd];
      }
    }
  }

  /** The closes, queued messages and lost messages of the first `n` turns account for every accepted descriptor. */
  ghost predicate Accounted(t: seq<Attempt>, n: nat)
    requires n <= |t|
  {
    multiset(ClosedFds(ClosedBy(t, n))) + multiset(Callers(QueuedBy(t, n))) + multiset(LeakedBy(t, n))
    == multiset(AcceptedBy(t, n))
  }

  /**
   * Every accepted connection ends up in exactly one place: closed by the acceptor,
   * handed to the queue, or lost with a queue node that could not be allocated.
   */
  lemma {:induction false} AcceptorAccountsForEveryConnection(t: seq<Attempt>, n: nat)
    requires n <= |t|
    ensures Accounted(t, n)
    decreases n
  {
    if n > 0 {
      var m: nat := n - 1;
      AcceptorAccountsForEveryConnection(t, m);
      AccountsStep(t, m);
    }
  }

  /** The accounting of the first `m` turns extends over the next one. */
  lemma AccountsStep(t: seq<Attempt>, m: nat)
    requires m < |t| && Accounted(t, m)
    ensures Accounted(t, m + 1)
  {
    var a := t[m];
    ClosedFdsAppend(ClosedBy(t, m), Closes(a));
    CallersAppend(QueuedBy(t, m), Queued(a));
    AttemptAccountsForConnection(a);
    Regroup(multiset(ClosedFds(ClosedBy(t, m))), multiset(Callers(QueuedBy(t, m))),
            multiset(LeakedBy(t, m)), multiset(AcceptedBy(t, m)),
            multiset(ClosedFds(Closes(a))), multiset(Callers(Queued(a))),
            multiset(Leaked(a)), multiset(if a.Accepted? then [a.fd] else []));
  }

  lemma Regroup(c: multiset<int>, q: multiset<int>, l: multiset<int>, a: multiset<int>,
                c': multiset<int>, q': multiset<int>, l': multiset<int>, a': multiset<int>)
    requires c + q + l == a && c' + q' + l' == a'
    ensures (c + c') + (q + q') + (l + l') == a + a'
  {
  }

  /** Turns none of which carries the sentinel queue no sentinel message. */
  lemma {:induction false} NoStopQueued(t: seq<Attempt>, n: nat)
    requires n <= |t|
    requires forall i :: 0 <= i < n ==> !Stops(t[i])
    ensures FirstStop(QueuedBy(t, n)) == |QueuedBy(t, n)|
  {
    if n > 0 {
      NoStopQueued(t, n - 1);
      var qs := QueuedBy(t, n - 1);
      assert forall j :: 0 <= j < |qs| ==> !IsStop(qs[j]);
      assert forall j :: 0 <= j < |QueuedBy(t, n)| ==> !IsStop(QueuedBy(t, n)[j]);
    }
  }

  /** The turn that carries the sentinel queues it, or nothing when its node could not be allocated. */
  lemma StopTurnQueues(a: Attempt)
    requires Stops(a)
    ensures Queued(a) == (if a.nodeAllocated then [Built(a).value] else [])
    ensures forall j :: 0 <= j < |Queued(a)| ==> IsStop(Queued(a)[j])
  {
  }

  /**
   * The acceptor stopped on a sentinel message and that message reached the queue. When
   * the sentinel's node could not be allocated the acceptor still stops, but the queue
   * never holds a sentinel.
   */
  predicate SentinelQueued(trace: seq<Attempt>)
  {
    FirstStopAttempt(trace) < |trace| && trace[FirstStopAttempt(trace)].nodeAllocated
  }

  /**
   * In what one acceptor run queues, only the last message can be a sentinel; it is one
   * when the sentinel's node was allocated, and otherwise the run queued no sentinel at all.
   */
  lemma SentinelQueuedLast(trace: seq<Attempt>, qs: seq<Message>)
    requires qs == QueuedBy(trace, Consumed(trace))
    ensures forall j :: 0 <= j < |qs| - 1 ==> !IsStop(qs[j])
    ensures SentinelQueued(trace) ==> qs != [] && IsStop(qs[|qs| - 1])
    ensures !SentinelQueued(trace) ==> FirstStop(qs) == |qs|
  {
    var k := FirstStopAttempt(trace);
    NoStopQueued(trace, k);
    var before := QueuedBy(trace, k);
    if k < |trace| {
      StopTurnQueues(trace[k]);
      assert qs == before + Queued(trace[k]);
      if trace[k].nodeAllocated {
        AppendSentinel(before, Queued(trace[k]));
      } else {
        assert qs == before;
      }
    } else {
      assert qs == before;
    }
  }

  /**
   * A dispatcher working from the first sentinel of what one acceptor run queued takes
   * all of it and leaves nothing behind; it meets a sentinel exactly when the acceptor
   * stopped and the sentinel's node was allocated.
   */
  lemma AcceptorQueuesSentinelLast(trace: seq<Attempt>)
    ensures Processed(QueuedBy(trace, Consumed(trace))) == QueuedBy(trace, Consumed(trace))
    ensures Remaining(QueuedBy(trace, Consumed(trace))) == []
    ensures SentinelQueued(trace) <==>
              FirstStop(QueuedBy(trace, Consumed(trace))) < |QueuedBy(trace, Consumed(trace))|
  {
    var qs := QueuedBy(trace, Consumed(trace));
    SentinelQueuedLast(trace, qs);
    SentinelOnlyLast(qs);
  }
}
