/** An optional value, standing for a pointer that may be NULL. */
module Wrappers {
  datatype Option<T> = None | Some(value: T)
}

/**
 * The external actions the server performs on the operating system, recorded in the
 * order they happen: `send` of some bytes on a connection, `close` of a connection
 * and `fopen` of a content file.
 */
module Io {

  datatype Event = Send(fd: int, bytes: seq<char>) | Close(fd: int) | Open(path: string)

  /** The descriptors closed by a run of events, in closing order. */
  function ClosedFds(es: seq<Event>): (fds: seq<int>)
    ensures |fds| <= |es|
  {
    if es == [] then []
    else (if es[0].Close? then [es[0].fd] else []) + ClosedFds(es[1..])
  }

  /** The bytes written by a run of events, in the order they were sent. */
  function SentBytes(es: seq<Event>): seq<char>
  {
    if es == [] then []
    else (if es[0].Send? then es[0].bytes else []) + SentBytes(es[1..])
  }

  /** The paths a run of events opened, in order. */
  function OpenedPaths(es: seq<Event>): seq<string>
  {
    if es == [] then []
    else (if es[0].Open? then [es[0].path] else []) + OpenedPaths(es[1..])
  }

  /** Closing is counted event by event, so it distributes over concatenation. */
  lemma {:induction false} ClosedFdsAppend(a: seq<Event>, b: seq<Event>)
    ensures ClosedFds(a + b) == ClosedFds(a) + ClosedFds(b)
  {
    if a == [] {
      assert a + b == b;
    } else {
      var head := (if a[0].Close? then [a[0].fd] else []);
      assert (a + b)[0] == a[0] && (a + b)[1..] == a[1..] + b;
      assert ClosedFds(a + b) == head + ClosedFds(a[1..] + b);
      ClosedFdsAppend(a[1..], b);
      assert ClosedFds(a) == head + ClosedFds(a[1..]);
    }
  }

  /** Bytes are sent event by event, so what is sent distributes over concatenation. */
  lemma {:induction false} SentBytesAppend(a: seq<Event>, b: seq<Event>)
    ensures SentBytes(a + b) == SentBytes(a) + SentBytes(b)
  {
    if a == [] {
      assert a + b == b;
    } else {
      var head := (if a[0].Send? then a[0].bytes else []);
      assert (a + b)[0] == a[0] && (a + b)[1..] == a[1..] + b;
      assert SentBytes(a + b) == head + SentBytes(a[1..] + b);
      SentBytesAppend(a[1..], b);
      assert SentBytes(a) == head + SentBytes(a[1..]);
    }
  }

  /** Files are opened event by event, so what is opened distributes over concatenation. */
  lemma {:induction false} OpenedPathsAppend(a: seq<Event>, b: seq<Event>)
    ensures OpenedPaths(a + b) == OpenedPaths(a) + OpenedPaths(b)
  {
    if a == [] {
      assert a + b == b;
    } else {
      var head := (if a[0].Open? then [a[0].path] else []);
      assert (a + b)[0] == a[0] && (a + b)[1..] == a[1..] + b;
      assert OpenedPaths(a + b) == head + OpenedPaths(a[1..] + b);
      OpenedPathsAppend(a[1..], b);
      assert OpenedPaths(a) == head + OpenedPaths(a[1..]);
    }
  }

  /** What a single event sends, opens and closes. */
  lemma OneEvent(e: Event)
    ensures SentBytes([e]) == (if e.Send? then e.bytes else [])
    ensures OpenedPaths([e]) == (if e.Open? then [e.path] else [])
    ensures ClosedFds([e]) == (if e.Close? then [e.fd] else [])
  {
    assert [e][1..] == [];
  }
}

/**
 * A queued request (the C struct MESSAGE): the descriptor of the connection it came
 * from and the NUL-terminated text read from it. The shutdown sentinel is the
 * substring "[STOP]" anywhere in the text; both loops stop at the first message that
 * carries it.
 */
module Messages {
  import opened CStrings

  datatype Message = Message(caller: int, text: string)

  const StopMarker: string := "[STOP]"

  predicate IsStop(m: Message)
  {
    Contains(m.text, StopMarker)
  }

  /** The descriptors of a run of messages, in order. */
  function Callers(ms: seq<Message>): (fds: seq<int>)
    ensures |fds| == |ms|
    ensures forall i :: 0 <= i < |ms| ==> fds[i] == ms[i].caller
  {
    seq(|ms|, i requires 0 <= i < |ms| => ms[i].caller)
  }

  lemma CallersAppend(a: seq<Message>, b: seq<Message>)
    ensures Callers(a + b) == Callers(a) + Callers(b)
  {
  }

  /** The position of the first sentinel message, or `|ms|` when there is none. */
  function FirstStop(ms: seq<Message>): (k: nat)
    ensures k <= |ms|
    ensures k < |ms| ==> IsStop(ms[k])
    ensures forall i :: 0 <= i < k ==> !IsStop(ms[i])
  {
    if ms == [] then 0 else if IsStop(ms[0]) then 0 else 1 + FirstStop(ms[1..])
  }

  /** A sentinel at `k` with none before it is the first sentinel. */
  lemma StopIsFirst(ms: seq<Message>, k: nat)
    requires k <= FirstStop(ms) && k < |ms| && IsStop(ms[k])
    ensures k == FirstStop(ms)
  {
  }

  /** The messages a dispatcher takes out of the queue: up to and including the first sentinel. */
  function Processed(ms: seq<Message>): seq<Message>
  {
    if FirstStop(ms) < |ms| then ms[..FirstStop(ms) + 1] else ms
  }

  /** The messages a dispatcher leaves queued: those behind the first sentinel. */
  function Remaining(ms: seq<Message>): seq<Message>
  {
    if FirstStop(ms) < |ms| then ms[FirstStop(ms) + 1..] else []
  }

  /**
   * Processing splits the queue in two without losing, duplicating or reordering a
   * message; only the last processed one can be a sentinel, and it is one exactly when
   * something is left behind or the queue held a sentinel.
   */
  lemma ProcessedThenRemaining(ms: seq<Message>)
    ensures Processed(ms) + Remaining(ms) == ms
    ensures forall i :: 0 <= i < |Processed(ms)| - 1 ==> !IsStop(Processed(ms)[i])
    ensures (FirstStop(ms) < |ms|) <==> (Processed(ms) != [] && IsStop(Processed(ms)[|Processed(ms)| - 1]))
    ensures Remaining(ms) != [] ==> FirstStop(ms) < |ms|
  {
    var k := FirstStop(ms);
    if k < |ms| {
      assert Processed(ms) == ms[..k + 1] && Remaining(ms) == ms[k + 1..];
      assert ms[..k + 1] + ms[k + 1..] == ms;
      assert Processed(ms)[k] == ms[k];
    } else {
      assert Processed(ms) == ms && Remaining(ms) == [];
      assert ms != [] ==> !IsStop(ms[|ms| - 1]);
    }
  }

  /**
   * A queue in which only the last message can be a sentinel is taken whole, and the
   * dispatcher meets a sentinel exactly when the last message is one.
   */
  lemma SentinelOnlyLast(ms: seq<Message>)
    requires forall i :: 0 <= i < |ms| - 1 ==> !IsStop(ms[i])
    ensures Processed(ms) == ms && Remaining(ms) == []
    ensures FirstStop(ms) < |ms| <==> ms != [] && IsStop(ms[|ms| - 1])
  {
    var k := FirstStop(ms);
    if k < |ms| {
      assert k == |ms| - 1;
      assert ms[..k + 1] == ms;
    }
  }

  /** Messages without a sentinel followed by at most one sentinel: only the last can be a sentinel. */
  lemma AppendSentinel(before: seq<Message>, last: seq<Message>)
    requires FirstStop(before) == |before|
    requires |last| <= 1 && forall j :: 0 <= j < |last| ==> IsStop(last[j])
    ensures forall j :: 0 <= j < |before + last| - 1 ==> !IsStop((before + last)[j])
    ensures last != [] ==> IsStop((before + last)[|before + last| - 1])
  {
    forall j | 0 <= j < |before + last| - 1
      ensures !IsStop((before + last)[j])
    {
      assert (before + last)[j] == before[j];
    }
    if last != [] {
      assert (before + last)[|before + last| - 1] == last[0];
    }
  }
}
