/**
 * `main` of both servers, run one phase after the other: the acceptor until it has
 * built a sentinel message (or the trace ends), then the dispatcher, then `cleanup`.
 * The dispatcher returns only once it has handled a queued sentinel; when none was
 * queued (the sentinel's node could not be allocated, or the trace ended first) it
 * polls forever, `main` never gets past its join and `cleanup` never runs. Either way
 * every connection `accept` handed out is closed exactly once, unless the acceptor lost
 * it when an allocation failed.
 */
module Server {
  import opened Io
  import opened Messages
  import opened MessageQueue
  import opened Acceptor
  import HttpServer
  import AckServer

  /** The static-file dispatcher and `cleanup` together close the callers of a queue, each exactly once. */
  lemma HttpDispatchThenCleanup(ms: seq<Message>, fs: HttpServer.FileSystem)
    ensures ClosedFds(HttpServer.DispatchEvents(Processed(ms), fs) + CloseEach(Remaining(ms))) == Callers(ms)
  {
    HttpServer.DispatchClosesEachCaller(Processed(ms), fs);
    CloseEachClosesCallers(Remaining(ms));
    ClosedFdsAppend(HttpServer.DispatchEvents(Processed(ms), fs), CloseEach(Remaining(ms)));
    ProcessedThenRemaining(ms);
    CallersAppend(Processed(ms), Remaining(ms));
  }

  /** The acknowledging dispatcher and `cleanup` together close the callers of a queue, each exactly once. */
  lemma AckDispatchThenCleanup(ms: seq<Message>)
    ensures ClosedFds(AckServer.AckAll(Processed(ms)) + CloseEach(Remaining(ms))) == Callers(ms)
  {
    AckServer.AckClosesEachCaller(Processed(ms));
    CloseEachClosesCallers(Remaining(ms));
    ClosedFdsAppend(AckServer.AckAll(Processed(ms)), CloseEach(Remaining(ms)));
    ProcessedThenRemaining(ms);
    CallersAppend(Processed(ms), Remaining(ms));
  }

  /** Closing the queued callers later completes the acceptor's account of every connection. */
  lemma CloseQueued(trace: seq<Attempt>, n: nat, later: seq<Event>)
    requires n <= |trace|
    requires ClosedFds(later) == Callers(QueuedBy(trace, n))
    ensures multiset(ClosedFds(ClosedBy(trace, n) + later)) + multiset(LeakedBy(trace, n))
            == multiset(AcceptedBy(trace, n))
  {
    AcceptorAccountsForEveryConnection(trace, n);
    ClosedFdsAppend(ClosedBy(trace, n), later);
  }

  /**
   * The static-file run's account: the acceptor's closes, the dispatcher's events and
   * whatever `cleanup` closes (nothing, whether or not it runs, since the dispatcher
   * has taken everything queued) close every accepted connection exactly once or lose
   * it; the dispatcher stops exactly when the acceptor queued its sentinel.
   */
  lemma HttpRunAccounts(trace: seq<Attempt>, fs: HttpServer.FileSystem, qs: seq<Message>, finished: bool)
    requires qs == QueuedBy(trace, Consumed(trace))
    ensures SentinelQueued(trace) <==> FirstStop(qs) < |qs|
    ensures multiset(ClosedFds(ClosedBy(trace, Consumed(trace)) +
              (HttpServer.DispatchEvents(Processed(qs), fs) + (if finished then CloseEach(Remaining(qs)) else []))))
            + multiset(LeakedBy(trace, Consumed(trace))) == multiset(AcceptedBy(trace, Consumed(trace)))
  {
    AcceptorQueuesSentinelLast(trace);
    var closed: seq<Event> := if finished then CloseEach(Remaining(qs)) else [];
    assert closed == CloseEach(Remaining(qs));
    HttpDispatchThenCleanup(qs, fs);
    var later := HttpServer.DispatchEvents(Processed(qs), fs) + closed;
    CloseQueued(trace, Consumed(trace), later);
  }

  /** The acknowledging run's account, as `HttpRunAccounts`. */
  lemma AckRunAccounts(trace: seq<Attempt>, qs: seq<Message>, finished: bool)
    requires qs == QueuedBy(trace, Consumed(trace))
    ensures SentinelQueued(trace) <==> FirstStop(qs) < |qs|
    ensures multiset(ClosedFds(ClosedBy(trace, Consumed(trace)) +
              (AckServer.AckAll(Processed(qs)) + (if finished then CloseEach(Remaining(qs)) else []))))
            + multiset(LeakedBy(trace, Consumed(trace))) == multiset(AcceptedBy(trace, Consumed(trace)))
  {
    AcceptorQueuesSentinelLast(trace);
    var closed: seq<Event> := if finished then CloseEach(Remaining(qs)) else [];
    assert closed == CloseEach(Remaining(qs));
    AckDispatchThenCleanup(qs);
    var later := AckServer.AckAll(Processed(qs)) + closed;
    CloseQueued(trace, Consumed(trace), later);
  }

  /**
   * The part of `main` after the acceptor: run `handle_message`, and `cleanup` once it has returned.
   * When it does not return (no sentinel was queued) nothing more happens.
   */
  method HttpPhase(q: Queue, fs: HttpServer.FileSystem) returns (events: seq<Event>, finished: bool)
    requires q.Valid()
    modifies q.Repr
    ensures finished == (FirstStop(old(q.Contents)) < |old(q.Contents)|)
    ensures events == HttpServer.DispatchEvents(Processed(old(q.Contents)), fs) + (if finished then CloseEach(Remaining(old(q.Contents))) else [])
  {
    var dispatched;
    dispatched, finished := HttpServer.HandleMessage(q, fs);
    var closed: seq<Event> := [];
    if finished {
      closed := Cleanup(q);
    }
    events := dispatched + closed;
  }

  /**
   * `main` of the static-file server over the acceptor's `trace` and the content
   * directory `fs`: every accepted connection ends up closed exactly once or lost.
   * `finished` tells whether the dispatcher returned, so that `cleanup` ran; otherwise the
   * events are those made before the dispatcher started to poll an empty queue forever.
   */
  method RunHttp(trace: seq<Attempt>, fs: HttpServer.FileSystem) returns (events: seq<Event>, consumed: nat, finished: bool)
    ensures consumed == Consumed(trace)
    ensures finished <==> SentinelQueued(trace)
    ensures multiset(ClosedFds(events)) + multiset(LeakedBy(trace, consumed)) == multiset(AcceptedBy(trace, consumed))
  {
    var q := new Queue();
    var accepted, stoppedAccepting;
    accepted, consumed, stoppedAccepting := AwaitCalls(q, trace);
    ghost var ms := q.Contents;
    var handled;
    handled, finished := HttpPhase(q, fs);
    events := accepted + handled;
    HttpRunAccounts(trace, fs, ms, finished);
  }

  /**
   * The part of `main` after the acceptor: run `loop`, and `cleanup` once it has returned.
   * When it does not return (no sentinel was queued) nothing more happens.
   */
  method AckPhase(q: Queue) returns (events: seq<Event>, finished: bool)
    requires q.Valid()
    modifies q.Repr
    ensures finished == (FirstStop(old(q.Contents)) < |old(q.Contents)|)
    ensures events == AckServer.AckAll(Processed(old(q.Contents))) + (if finished then CloseEach(Remaining(old(q.Contents))) else [])
  {
    var dispatched;
    dispatched, finished := AckServer.Loop(q);
    var closed: seq<Event> := [];
    if finished {
      closed := Cleanup(q);
    }
    events := dispatched + closed;
  }

  /**
   * `main` of the acknowledging server: every accepted connection ends up closed exactly
   * once or lost; `finished` tells whether `loop` returned, so that `cleanup` ran.
   */
  method RunAck(trace: seq<Attempt>) returns (events: seq<Event>, consumed: nat, finished: bool)
    ensures consumed == Consumed(trace)
    ensures finished <==> SentinelQueued(trace)
    ensures multiset(ClosedFds(events)) + multiset(LeakedBy(trace, consumed)) == multiset(AcceptedBy(trace, consumed))
  {
    var q := new Queue();
    var accepted, stoppedAccepting;
    accepted, consumed, stoppedAccepting := AwaitCalls(q, trace);
    ghost var ms := q.Contents;
    var answered;
    answered, finished := AckPhase(q);
    events := accepted + answered;
    AckRunAccounts(trace, ms, finished);
  }
}
