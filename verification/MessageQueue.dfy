/** The linked message queue of server/thrdmsg_mpscq.c. New messages enter at the head, the oldest one
    leaves at the tail; in MPSC mode an eventfd semaphore counts the messages. */
module MessageQueue {
  import opened ByteStrings
  import opened Chains
  import opened Outbound

  datatype Mode = SPSC | MPSC

  class MsgNode {
    const msg: Msg
    var next: MsgNode?   // the message that arrived just before this one
    var prev: MsgNode?   // the one that arrived just after it

    constructor (m: Msg)
      ensures msg == m && next == null && prev == null
    {
      msg, next, prev := m, null, null;
    }
  }

  /** The messages of a chain of nodes. */
  ghost function Messages(nodes: seq<MsgNode>): (ms: seq<Msg>)
    ensures |ms| == |nodes|
    ensures forall i | 0 <= i < |ms| :: ms[i] == nodes[i].msg
  {
    seq(|nodes|, i requires 0 <= i < |nodes| => nodes[i].msg)
  }

  /** The node at a position, or null beyond either end. */
  ghost function QueueAt(nodes: seq<MsgNode>, i: int): (n: MsgNode?) {
    if 0 <= i < |nodes| then nodes[i] else null
  }

  lemma FirstRemoved(nodes: seq<MsgNode>)
    requires nodes != []
    ensures Messages(nodes) == [nodes[0].msg] + Messages(Removed(nodes, 0))
  {
  }

  lemma MessagesAppend(nodes: seq<MsgNode>, n: MsgNode)
    ensures Messages(nodes + [n]) == Messages(nodes) + [n.msg]
  {
  }

  class MsgQueue {
    const mode: Mode
    var head: MsgNode?
    var tail: MsgNode?
    var eventfd: nat
    ghost var nodes: seq<MsgNode>   // oldest first
    ghost var repr: set<MsgNode>

    /** Both links of every node agree with the order of arrival, and the eventfd counts the nodes. */
    ghost predicate Valid()
      reads this, repr
    {
      && Distinct(nodes)
      && (forall i {:trigger nodes[i]} | 0 <= i < |nodes| :: nodes[i] in repr)
      && (forall i {:trigger nodes[i].prev} | 0 <= i < |nodes| :: nodes[i].prev == QueueAt(nodes, i + 1))
      && (forall i {:trigger nodes[i].next} | 0 <= i < |nodes| :: nodes[i].next == QueueAt(nodes, i - 1))
      && head == QueueAt(nodes, |nodes| - 1)
      && tail == QueueAt(nodes, 0)
      && eventfd == (if mode.MPSC? then |nodes| else 0)
    }

    ghost function Contents(): seq<Msg>
      reads this`nodes
    {
      Messages(nodes)
    }

    constructor (m: Mode)
      ensures Valid() && mode == m && Contents() == [] && repr == {}
    {
      mode, head, tail, eventfd, nodes, repr := m, null, null, 0, [], {};
    }

    method EventfdWrite()
      modifies this`eventfd
      ensures eventfd == old(eventfd) + 1
    {
      eventfd := eventfd + 1;
    }

    /** A semaphore read takes one unit, and fails without blocking when there is none. */
    method EventfdRead()
      modifies this`eventfd
      ensures eventfd == if old(eventfd) == 0 then 0 else old(eventfd) - 1
    {
      if eventfd > 0 { eventfd := eventfd - 1; }
    }

    /** The pointer updates of an enqueue. */
    method Attach(msg: MsgNode)
      requires msg != head
      modifies this, msg, if head == null then {} else {head}
      ensures head == msg && tail == if old(head) == null then msg else old(tail)
      ensures msg.prev == null && msg.next == old(head)
      ensures old(head) != null ==> old(head).prev == msg && old(head).next == old(head.next)
      ensures eventfd == if mode.MPSC? then old(eventfd) + 1 else old(eventfd)
      ensures nodes == old(nodes) + [msg] && repr == old(repr) + {msg}
    {
      msg.prev := null;
      if head == null {
        tail := msg;
        head := msg;
        msg.next := null;
      } else {
        msg.next := head;
        head.prev := msg;
        head := msg;
      }
      if mode.MPSC? { EventfdWrite(); }
      nodes := nodes + [msg];
      repr := repr + {msg};
    }

    method Enqueue(msg: MsgNode?)
      requires Valid() && msg !in repr
      modifies this, msg, repr
      ensures Valid() && repr == if msg == null then old(repr) else old(repr) + {msg}
      ensures Contents() == if msg == null then old(Contents()) else old(Contents()) + [msg.msg]
    {
      if msg == null { return; }
      OnlyAt(nodes, |nodes| - 1);
      DistinctAppend(nodes, msg);
      MessagesAppend(nodes, msg);
      Attach(msg);
    }

    /** The pointer updates of a dequeue. */
    method Detach() returns (m: MsgNode)
      requires tail != null && tail.prev != tail && nodes != []
      modifies this, tail, if tail.prev == null then {} else {tail.prev}
      ensures m == old(tail) && m.prev == null && m.next == old(tail.next)
      ensures tail == old(tail.prev) && head == if old(tail.prev) == null then null else old(head)
      ensures tail != null ==> tail.next == null && tail.prev == old(tail.prev.prev)
      ensures eventfd == if mode.MPSC? && old(eventfd) > 0 then old(eventfd) - 1 else old(eventfd)
      ensures nodes == Removed(old(nodes), 0) && repr == old(repr) - {m}
    {
      if mode.MPSC? { EventfdRead(); }
      m := tail;
      if tail.prev == null {
        head := null;
        tail := null;
      } else {
        tail.prev.next := null;
        tail := tail.prev;
      }
      m.prev := null;
      nodes := Removed(nodes, 0);
      repr := repr - {m};
    }

    method Dequeue() returns (m: MsgNode?)
      requires Valid()
      modifies this, repr
      ensures Valid()
      ensures m == null <==> old(Contents()) == []
      ensures m != null ==> old(Contents()) == [m.msg] + Contents()
      ensures m != null ==> m.prev == null && m.next == null && m in old(repr) && repr == old(repr) - {m}
      ensures m == null ==> Contents() == [] && repr == old(repr)
    {
      if tail == null { return null; }
      FirstRemoved(nodes);
      m := TakeOldest();
    }

    method TakeOldest() returns (m: MsgNode)
      requires Valid() && nodes != []
      modifies this, repr
      ensures Valid() && m == old(nodes)[0] && nodes == Removed(old(nodes), 0)
      ensures m.prev == null && m.next == null && m in old(repr) && repr == old(repr) - {m}
    {
      OnlyAt(nodes, 0);
      OnlyAt(nodes, 1);
      DistinctRemoved(nodes, 0);
      m := Detach();
    }

    /** The pointer updates of one removal in a flush: the two neighbours are joined, or the end of the
        list that has no neighbour moves. */
    method Bypass(n: MsgNode, ghost i: nat)
      requires n.prev != n && n.next != n && (n.prev != null ==> n.prev != n.next) && i < |nodes|
      modifies this, n, if n.prev == null then {} else {n.prev}, if n.next == null then {} else {n.next}
      ensures n.prev == null && n.next == null
      ensures tail == if old(tail) == n then old(n.prev) else old(tail)
      ensures head == if old(n.prev) == null then old(n.next) else old(head)
      ensures old(n.prev) != null ==> old(n.prev).next == old(n.next) && old(n.prev).prev == old(n.prev.prev)
      ensures old(n.next) != null ==> old(n.next).prev == old(n.prev) && old(n.next).next == old(n.next.next)
      ensures eventfd == if old(eventfd) == 0 then 0 else old(eventfd) - 1
      ensures nodes == Removed(old(nodes), i) && repr == old(repr) - {n}
    {
      if tail == n { tail := n.prev; }
      if n.prev != null { n.prev.next := n.next; } else { head := n.next; }
      if n.next != null { n.next.prev := n.prev; }
      n.next := null;
      n.prev := null;
      EventfdRead();
      nodes := Removed(nodes, i);
      repr := repr - {n};
    }

    /** The unlinking in the middle of the flush; the node is freed. */
    method Unlink(n: MsgNode, ghost i: nat) returns (after: MsgNode?)
      requires Valid() && mode.MPSC? && i < |nodes| && n == nodes[i]
      modifies this, repr
      ensures Valid() && nodes == Removed(old(nodes), i) && after == QueueAt(nodes, i - 1)
      ensures repr <= old(repr)
    {
      OnlyAt(nodes, i - 1);
      OnlyAt(nodes, i);
      OnlyAt(nodes, i + 1);
      DistinctRemoved(nodes, i);
      after := n.next;
      Bypass(n, i);
    }

    /** One round of the flush loop: past a message of another sender, or unlinking one of this sender. */
    method FlushOne(n: MsgNode, subject: Bytes, ghost i: nat, ghost was: seq<MsgNode>) returns (after: MsgNode?)
      requires Valid() && mode.MPSC? && i < |nodes| && n == nodes[i] && Swept(was, nodes, i + 1, subject)
      modifies this, repr
      ensures Valid() && after == QueueAt(nodes, i - 1) && Swept(was, nodes, i, subject)
      ensures repr <= old(repr)
    {
      SweptStep(was, nodes, i, subject);
      if n.msg.subject != subject {
        after := n.next;
      } else {
        after := Unlink(n, i);
      }
    }

    /** mpscq_flush_msgs_with_subject: in MPSC mode, exactly the messages of other senders stay, in order. */
    method Flush(subject: Bytes)
      requires Valid()
      modifies this, repr
      ensures Valid()
      ensures Contents() == if mode.SPSC? then old(Contents()) else Without(old(Contents()), subject)
      ensures repr <= old(repr)
    {
      if mode.SPSC? { return; }
      ghost var was := nodes;
      var mnode := head;
      ghost var i := |nodes| - 1;
      SweptNone(was, subject);
      while mnode != null
        invariant Valid() && -1 <= i < |nodes| && mnode == QueueAt(nodes, i)
        invariant Swept(was, nodes, i + 1, subject)
        invariant repr <= old(repr)
        decreases i
      {
        mnode := FlushOne(mnode, subject, i, was);
        i := i - 1;
      }
      SweptAll(was, nodes, subject);
    }
  }

  /** The flush has dealt with the nodes from position k on. */
  ghost predicate Swept(was: seq<MsgNode>, nodes: seq<MsgNode>, k: nat, subject: Bytes) {
    && k <= |nodes| && k <= |was|
    && (forall j {:trigger nodes[j]} | 0 <= j < k :: nodes[j] == was[j])
    && Messages(nodes)[k..] == Without(Messages(was)[k..], subject)
  }

  lemma SweptNone(was: seq<MsgNode>, subject: Bytes)
    ensures Swept(was, was, |was|, subject)
  {
    assert Messages(was)[|was|..] == [];
  }

  lemma SweptAll(was: seq<MsgNode>, nodes: seq<MsgNode>, subject: Bytes)
    requires Swept(was, nodes, 0, subject)
    ensures Messages(nodes) == Without(Messages(was), subject)
  {
    var ms, ns := Messages(was), Messages(nodes);
    assert ms[0..] == ms && ns[0..] == ns;
  }

  lemma SweptStep(was: seq<MsgNode>, nodes: seq<MsgNode>, i: nat, subject: Bytes)
    requires Swept(was, nodes, i + 1, subject)
    ensures nodes[i] == was[i]
    ensures nodes[i].msg.subject != subject ==> Swept(was, nodes, i, subject)
    ensures nodes[i].msg.subject == subject ==> Swept(was, Removed(nodes, i), i, subject)
  {
    var ms, ns := Messages(was), Messages(nodes);
    HeadTail(ms[i..]);
    HeadTail(ns[i..]);
    assert ms[i..][1..] == ms[i + 1..] && ns[i..][1..] == ns[i + 1..];
    if nodes[i].msg.subject == subject {
      assert Messages(Removed(nodes, i))[i..] == ns[i + 1..];
    }
  }
}
