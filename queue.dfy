/**
 * The global message queue shared by the two threads: a singly linked list of nodes
 * (the C struct MESSAGE_QUEUE) reached from `head`. `add_message` walks to the last
 * node and links a new one behind it; `poll_message` unlinks the head. The mutex
 * around both is not modelled: each call is one atomic step.
 */
module MessageQueue {
  import opened Wrappers
  import opened Io
  import opened Messages

  class Node {
    var message: Message
    var next: Node?

    constructor (m: Message)
      ensures message == m && next == null
    {
      message := m;
      next := null;
    }
  }

  class Queue {
    var head: Node?

    // abstract view: the queued messages, head first, and the nodes holding them
    ghost var Contents: seq<Message>
    ghost var Nodes: seq<Node>
    ghost var Repr: set<object>

    /** The nodes form one acyclic chain from `head` whose messages are `Contents`. */
    ghost predicate Valid()
      reads this, Repr
    {
      this in Repr &&
      |Nodes| == |Contents| &&
      (forall i :: 0 <= i < |Nodes| ==>
         Nodes[i] in Repr && Nodes[i].message == Contents[i] &&
         (i + 1 < |Nodes| ==> Nodes[i].next == Nodes[i + 1]) &&
         (i + 1 == |Nodes| ==> Nodes[i].next == null)) &&
      (forall i, j :: 0 <= i < j < |Nodes| ==> Nodes[i] != Nodes[j]) &&
      head == (if Nodes == [] then null else Nodes[0])
    }

    /** `MESSAGE_QUEUE *queue = NULL`: the queue starts empty. */
    constructor ()
      ensures Valid() && fresh(Repr) && Contents == []
    {
      head := null;
      Contents, Nodes := [], [];
      Repr := {this};
    }

    /**
     * `add_message`: append `m` at the tail. When the node cannot be allocated
     * (`nodeAllocated` is false) the queue is left as it was and `m` is dropped.
     */
    method Add(m: Message, nodeAllocated: bool)
      requires Valid()
      modifies Repr
      ensures Valid() && fresh(Repr - old(Repr))
      ensures Contents == if nodeAllocated then old(Contents) + [m] else old(Contents)
    {
      if !nodeAllocated {
        return;
      }
      var node := new Node(m);
      if head == null {
        head := node;
      } else {
        var it := head;
        ghost var k := 0;
        while it.next != null
          invariant 0 <= k < |Nodes| && it == Nodes[k]
          invariant k + 1 < |Nodes| ==> it.next == Nodes[k + 1]
          invariant k + 1 == |Nodes| ==> it.next == null
          decreases |Nodes| - k
        {
          it := it.next;
          k := k + 1;
        }
        assert k == |Nodes| - 1;
        assert forall i :: 0 <= i < k ==> Nodes[i] != it;
        it.next := node;
      }
      Nodes := Nodes + [node];
      Contents := Contents + [m];
      Repr := Repr + {node};
    }

    /**
     * `poll_message`: on an empty queue, NULL and no change; otherwise the head message,
     * and the queue becomes its tail.
     */
    method Poll() returns (m: Option<Message>)
      requires Valid()
      modifies this
      ensures Valid() && Repr == old(Repr)
      ensures old(Contents) == [] ==> m == None && Contents == []
      ensures old(Contents) != [] ==> m == Some(old(Contents)[0]) && Contents == old(Contents)[1..]
    {
      if head == null {
        return None;
      }
      var polled := head;
      head := head.next;
      m := Some(polled.message);
      Nodes, Contents := Nodes[1..], Contents[1..];
    }
  }

  /** One close per message, in queue order: what `cleanup` does to the leftovers. */
  function CloseEach(ms: seq<Message>): (es: seq<Event>)
    ensures |es| == |ms|
    ensures forall i :: 0 <= i < |ms| ==> es[i] == Close(ms[i].caller)
  {
    seq(|ms|, i requires 0 <= i < |ms| => Close(ms[i].caller))
  }

  /** `cleanup` closes every leftover caller exactly once, in queue order, and sends nothing. */
  lemma {:induction false} CloseEachClosesCallers(ms: seq<Message>)
    ensures ClosedFds(CloseEach(ms)) == Callers(ms)
  {
    if ms != [] {
      assert CloseEach(ms) == [Close(ms[0].caller)] + CloseEach(ms[1..]);
      assert Callers(ms) == [ms[0].caller] + Callers(ms[1..]);
      CloseEachClosesCallers(ms[1..]);
    }
  }

  /** `cleanup`: poll until the queue is empty, closing each polled caller. */
  method Cleanup(q: Queue) returns (events: seq<Event>)
    requires q.Valid()
    modifies q.Repr
    ensures q.Valid() && q.Repr == old(q.Repr) && q.Contents == []
    ensures events == CloseEach(old(q.Contents))
  {
    events := [];
    while q.head != null
      invariant q.Valid() && q.Repr == old(q.Repr)
      invariant |events| <= |old(q.Contents)| && q.Contents == old(q.Contents)[|events|..]
      invariant forall i :: 0 <= i < |events| ==> events[i] == Close(old(q.Contents)[i].caller)
      decreases |q.Contents|
    {
      var m := q.Poll();
      if m.Some? {
        events := events + [Close(m.value.caller)];
      }
    }
  }

  /** Messages added one by one come back out of `Poll` in the order they went in. */
  method AddAllThenPollAll(q: Queue, ms: seq<Message>) returns (out: seq<Message>)
    requires q.Valid() && q.Contents == []
    modifies q.Repr
    ensures q.Valid() && q.Contents == []
    ensures out == ms
  {
    var i := 0;
    while i < |ms|
      invariant i <= |ms| && q.Valid() && fresh(q.Repr - old(q.Repr))
      invariant q.Contents == ms[..i]
    {
      q.Add(ms[i], true);
      assert ms[..i + 1] == ms[..i] + [ms[i]];
      i := i + 1;
    }
    out := [];
    var m := q.Poll();
    while m.Some?
      invariant q.Valid() && fresh(q.Repr - old(q.Repr))
      invariant m.Some? ==> |out| < |ms| && ms[|out|] == m.value && q.Contents == ms[|out| + 1..]
      invariant m.None? ==> out == ms && q.Contents == []
      invariant out == ms[..|out|]
      decreases |q.Contents| + (if m.Some? then 1 else 0)
    {
      assert ms[..|out| + 1] == ms[..|out|] + [m.value];
      out := out + [m.value];
      m := q.Poll();
    }
  }
}
