/**
 * The dispatcher of the acknowledging server (webserver.c, `loop`): every message taken
 * out of the queue, the sentinel included, is answered with "ACK\r\n" and its connection
 * is closed; the dispatcher stops once it has answered the sentinel.
 */
module AckServer {
  import opened Wrappers
  import opened Io
  import opened Messages
  import opened MessageQueue

  const Ack: string := "ACK\r\n"

  /** What `loop` does with one message: acknowledge it, then close its connection. */
  function AckEvents(m: Message): seq<Event>
  {
    [Send(m.caller, Ack), Close(m.caller)]
  }

  /** The events of acknowledging a run of messages one after the other, in queue order. */
  function AckAll(ms: seq<Message>): seq<Event>
  {
    if ms == [] then [] else AckAll(ms[..|ms| - 1]) + AckEvents(ms[|ms| - 1])
  }

  /**
   * `loop`: poll messages and acknowledge them in queue order until the sentinel has
   * been answered (`stopped`) or the queue is empty. The queue is left holding exactly
   * the messages behind the sentinel.
   */
  method Loop(q: Queue) returns (events: seq<Event>, stopped: bool)
    requires q.Valid()
    modifies q
    ensures q.Valid() && q.Repr == old(q.Repr)
    ensures stopped == (FirstStop(old(q.Contents)) < |old(q.Contents)|)
    ensures q.Contents == Remaining(old(q.Contents))
    ensures events == AckAll(Processed(old(q.Contents)))
  {
    ghost var ms := q.Contents;
    ghost var k := 0;
    events, stopped := [], false;
    var polled := q.Poll();
    while polled.Some?
      invariant q.Valid() && q.Repr == old(q.Repr)
      invariant k <= FirstStop(ms) && k <= |ms|
      invariant polled.Some? ==> k < |ms| && polled.value == ms[k] && q.Contents == ms[k + 1..]
      invariant polled.None? ==> k == |ms| && q.Contents == []
      invariant events == AckAll(ms[..k])
      decreases |q.Contents| + (if polled.Some? then 1 else 0)
    {
      var m := polled.value;
      AckStep(ms, k);
      events := events + [Send(m.caller, Ack)];
      if IsStop(m) {
        StopIsFirst(ms, k);
        events := events + [Close(m.caller)];
        stopped := true;
        return;
      }
      assert k < FirstStop(ms);
      events := events + [Close(m.caller)];
      k := k + 1;
      polled := q.Poll();
    }
    assert ms[..k] == ms == Processed(ms);
  }

  /** Acknowledging one more message appends its two events. */
  lemma AckStep(ms: seq<Message>, k: nat)
    requires k < |ms|
    ensures AckAll(ms[..k + 1]) == AckAll(ms[..k]) + [Send(ms[k].caller, Ack)] + [Close(ms[k].caller)]
  {
    assert ms[..k + 1][..k] == ms[..k];
  }

  // ----- Properties of the dispatcher -----

  /**
   * Event `2i` acknowledges the `i`-th message and event `2i + 1` closes its connection:
   * every message, the sentinel included, is answered before it is closed, in queue order.
   */
  lemma {:induction false} AckAllShape(ms: seq<Message>)
    ensures |AckAll(ms)| == 2 * |ms|
    ensures forall i :: 0 <= i < |ms| ==>
              AckAll(ms)[2 * i] == Send(ms[i].caller, Ack) && AckAll(ms)[2 * i + 1] == Close(ms[i].caller)
    decreases |ms|
  {
    if ms != [] {
      var init := ms[..|ms| - 1];
      AckAllShape(init);
      forall i | 0 <= i < |ms|
        ensures AckAll(ms)[2 * i] == Send(ms[i].caller, Ack) && AckAll(ms)[2 * i + 1] == Close(ms[i].caller)
      {
        if i < |init| {
          assert ms[i] == init[i];
        }
      }
    }
  }

  /** The dispatcher closes the callers of the messages it takes, each exactly once, in queue order. */
  lemma {:induction false} AckClosesEachCaller(ms: seq<Message>)
    ensures ClosedFds(AckAll(ms)) == Callers(ms)
    decreases |ms|
  {
    if ms != [] {
      var init, last := ms[..|ms| - 1], ms[|ms| - 1];
      AckClosesEachCaller(init);
      OneEvent(Send(last.caller, Ack));
      OneEvent(Close(last.caller));
      ClosedFdsAppend([Send(last.caller, Ack)], [Close(last.caller)]);
      assert AckEvents(last) == [Send(last.caller, Ack)] + [Close(last.caller)];
      ClosedFdsAppend(AckAll(init), AckEvents(last));
      assert ms == init + [last];
      CallersAppend(init, [last]);
    }
  }

  /** The sentinel is acknowledged like any other message before its connection is closed, and nothing after it is taken. */
  lemma SentinelAcknowledged(ms: seq<Message>)
    requires FirstStop(ms) < |ms|
    ensures |AckAll(Processed(ms))| == 2 * (FirstStop(ms) + 1)
    ensures AckAll(Processed(ms))[2 * FirstStop(ms)] == Send(ms[FirstStop(ms)].caller, Ack)
    ensures AckAll(Processed(ms))[2 * FirstStop(ms) + 1] == Close(ms[FirstStop(ms)].caller)
  {
    var p := Processed(ms);
    AckAllShape(p);
    assert p[FirstStop(ms)] == ms[FirstStop(ms)];
  }
}
