/**
 The queue as the program builds it: a singly linked list with head, tail and size, rewired in place.
 Each operation is proved against QueueModel.
 */
module MessageQueue {
  import opened Common
  import Q = QueueModel

  class Node {
    const message: Q.Message
    var next: Node?

    constructor (message: Q.Message)
      ensures this.message == message && next == null
    {
      this.message, next := message, null;
    }
  }

  ghost function At(nodes: seq<Node>, i: int): Node? {
    if 0 <= i < |nodes| then nodes[i] else null
  }

  ghost predicate Linked(nodes: seq<Node>, head: Node?, tail: Node?)
    reads nodes`next
  {
    && (forall i, j :: 0 <= i < j < |nodes| ==> nodes[i] != nodes[j])
    && head == At(nodes, 0) && tail == At(nodes, |nodes| - 1)
    && forall i {:trigger nodes[i].next} :: 0 <= i < |nodes| ==> nodes[i].next == At(nodes, i + 1)
  }

  ghost predicate Shows(nodes: seq<Node>, contents: seq<Q.Message>) {
    |contents| == |nodes| && forall i :: 0 <= i < |nodes| ==> contents[i] == nodes[i].message
  }

  ghost function Inserted<T>(s: seq<T>, p: nat, x: T): (r: seq<T>)
    requires p <= |s|
    ensures |r| == |s| + 1 && r[p] == x
    ensures forall i :: 0 <= i < p ==> r[i] == s[i]
    ensures forall i :: p < i < |r| ==> r[i] == s[i - 1]
  {
    s[..p] + [x] + s[p..]
  }

  lemma InsertKeepsLinks(nodes: seq<Node>, p: nat, node: Node, head: Node?, tail: Node?)
    requires p <= |nodes| && node !in nodes && forall i, j :: 0 <= i < j < |nodes| ==> nodes[i] != nodes[j]
    requires head == (if p == 0 then node else nodes[0]) && tail == if p == |nodes| then node else nodes[|nodes| - 1]
    requires node.next == At(nodes, p)
    requires forall i {:trigger nodes[i].next} :: 0 <= i < |nodes| ==>
      nodes[i].next == if i == p - 1 then node else At(nodes, i + 1)
    ensures Linked(Inserted(nodes, p, node), head, tail)
  {
  }

  class MQueue {
    const ordering: Q.Ordering
    var head: Node?
    var tail: Node?
    var size: nat
    var totalPublished: nat
    var totalConsumed: nat

    ghost var nodes: seq<Node>
    ghost var contents: seq<Q.Message>
    ghost var repr: set<Node>

    ghost predicate Valid()
      reads this, repr
    {
      && (forall i :: 0 <= i < |nodes| ==> nodes[i] in repr)
      && Linked(nodes, head, tail) && Shows(nodes, contents) && size == |nodes|
    }

    /** The broker with this queue and the given consumers. */
    ghost function State(consumers: map<Q.Name, Q.Consumer>): Q.Broker
      reads this
    {
      Q.Broker(ordering, contents, consumers, totalPublished, totalConsumed)
    }

    constructor (ordering: Q.Ordering)
      ensures Valid() && State(map[]) == Q.Start(ordering) && fresh(repr)
    {
      this.ordering := ordering;
      head, tail, size, totalPublished, totalConsumed := null, null, 0, 0, 0;
      nodes, contents, repr := [], [], {};
    }

    /** The position the scan for a priority stops at, with the node before it. */
    method FindSlot(priority: int) returns (prev: Node?, current: Node?, ghost p: nat)
      requires Valid()
      ensures p == Q.Slot(contents, priority) && prev == At(nodes, p - 1) && current == At(nodes, p)
    {
      hide Q.Slot;
      prev, current, p := null, head, 0;
      while current != null && current.message.priority >= priority
        invariant 0 <= p <= |nodes| && prev == At(nodes, p - 1) && current == At(nodes, p)
        invariant forall i :: 0 <= i < p ==> contents[i].priority >= priority
        decreases |nodes| - p
      {
        prev := current;
        current := current.next;
        p := p + 1;
      }
    }

    /** Splices the node in between `prev` and `current`. */
    method Splice(node: Node, prev: Node?, current: Node?, ghost p: nat)
      requires Linked(nodes, head, tail) && node !in nodes && (forall i :: 0 <= i < |nodes| ==> nodes[i] in repr)
      requires p <= |nodes| && prev == At(nodes, p - 1) && current == At(nodes, p)
      modifies this`head, this`tail, this`nodes, node`next, repr`next
      ensures nodes == Inserted(old(nodes), p, node) && Linked(nodes, head, tail)
    {
      node.next := current;
      if prev != null {
        prev.next := node;
      } else {
        head := node;
      }
      if node.next == null {
        tail := node;
      }
      InsertKeepsLinks(nodes, p, node, head, tail);
      nodes := Inserted(nodes, p, node);
    }

    method Append(node: Node)
      requires Linked(nodes, head, tail) && node !in nodes && (forall i :: 0 <= i < |nodes| ==> nodes[i] in repr)
      modifies this`head, this`tail, this`nodes, node`next, repr`next
      ensures nodes == Inserted(old(nodes), |old(nodes)|, node) && Linked(nodes, head, tail)
    {
      node.next := null;
      if tail != null {
        tail.next := node;
      } else {
        head := node;
      }
      tail := node;
      InsertKeepsLinks(nodes, |nodes|, node, head, tail);
      nodes := Inserted(nodes, |nodes|, node);
    }

    method EnqueueNode(node: Node)
      requires Valid() && node !in nodes
      modifies this`head, this`tail, this`size, this`nodes, this`contents, this`repr, node`next, repr`next
      ensures Valid() && contents == Q.Enqueue(ordering, old(contents), node.message)
      ensures repr == old(repr) + {node} && forall x :: x in nodes <==> x in old(nodes) || x == node
    {
      hide Linked, Q.Slot;
      ghost var p := |nodes|;
      if ordering.ByPriority? {
        var prev, current;
        prev, current, p := FindSlot(node.message.priority);
        Splice(node, prev, current, p);
      } else {
        Append(node);
      }
      contents := Inserted(contents, p, node.message);
      repr := repr + {node};
      size := size + 1;
    }

    method DequeueNode() returns (node: Node?)
      requires Valid()
      modifies this`head, this`tail, this`size, this`nodes, this`contents
      ensures Valid()
      ensures old(contents) == [] ==> node == null && contents == [] && nodes == []
      ensures old(contents) != [] ==> node != null && node in repr && node !in nodes && old(nodes) == [node] + nodes
      ensures old(contents) != [] ==> node.message == old(contents)[0] && contents == old(contents)[1..]
    {
      if head == null {
        return null;
      }
      node := head;
      head := node.next;
      if head == null {
        tail := null;
      }
      nodes, contents := nodes[1..], contents[1..];
      size := size - 1;
    }

    method Publish(topic: Option<Key>, payload: Option<Bytes>, priority: int) returns (status: Status)
      requires Valid()
      modifies this`head, this`tail, this`size, this`nodes, this`contents, this`repr, this`totalPublished, repr`next
      ensures Valid() && old(repr) <= repr && fresh(repr - old(repr))
      ensures forall x :: x in nodes ==> x in old(nodes) || fresh(x)
      ensures if topic.None? || payload.None? || payload.value == []
        then status == InvalidParam && contents == old(contents) && totalPublished == old(totalPublished)
        else
          && status == Success && totalPublished == old(totalPublished) + 1
          && contents == Q.Enqueue(ordering, old(contents), Q.Message(old(totalPublished), topic.value, payload.value, priority))
    {
      hide Linked, Shows, Q.Enqueue;
      if topic.None? || payload.None? || payload.value == [] {
        return InvalidParam;
      }
      var node := new Node(Q.Message(totalPublished, topic.value, payload.value, priority));
      EnqueueNode(node);
      totalPublished := totalPublished + 1;
      return Success;
    }

    method Clear()
      requires Valid()
      modifies this`head, this`tail, this`size, this`nodes, this`contents
      ensures Valid() && contents == [] && nodes == []
    {
      head, tail, size := null, null, 0;
      nodes, contents := [], [];
    }
  }

  /** A subscription and its thread.  The node it holds is in no list. */
  class ConsumerThread {
    const queue: MQueue
    ghost const name: Q.Name
    const topic: Key
    var active: bool
    var held: Node?
    var handled: bool

    ghost predicate Valid()
      reads this, queue, queue.repr
    {
      queue.Valid() && (held != null ==> held !in queue.nodes && held in queue.repr)
    }

    ghost function Phase(): Q.Phase
      reads this
    {
      if held == null then Q.Idle else if handled then Q.Finished(held.message) else Q.Holding(held.message)
    }

    ghost function Consumer(): Q.Consumer
      reads this
    {
      Q.Consumer(topic, active, Phase())
    }

    /** The broker as this thread's queue and its own fields show it, the other threads being as given. */
    ghost function Shown(others: map<Q.Name, Q.Consumer>): Q.Broker
      reads this, queue
    {
      queue.State(others[name := Consumer()])
    }

    constructor (queue: MQueue, topic: Key, ghost name: Q.Name)
      requires queue.Valid()
      ensures Valid() && this.queue == queue && this.name == name && held == null
      ensures Consumer() == Q.Consumer(topic, true, Q.Idle)
    {
      this.queue, this.name, this.topic := queue, name, topic;
      active, held, handled := true, null, false;
    }

    /** The first locked region; the thread waits, or stops, exactly when the step is not enabled. */
    method Take(ghost others: map<Q.Name, Q.Consumer>) returns (taken: bool)
      requires Valid() && held == null
      modifies this`held, this`handled, queue`head, queue`tail, queue`size, queue`nodes, queue`contents
      ensures Valid() && (taken <==> old(active) && old(queue.contents) != [])
      ensures taken == old(Q.Enabled(Shown(others), Q.Take(name)))
      ensures Shown(others) == old(if taken then Q.Step(Shown(others), Q.Take(name)).0 else Shown(others))
      ensures old(queue.nodes) == if taken then [held] + queue.nodes else queue.nodes
      ensures held != null <==> taken
    {
      hide Linked;
      taken := active && queue.size != 0;
      if taken {
        held := queue.DequeueNode();
        handled := false;
        SamePlace(others, name, old(Consumer()), Consumer());
      }
    }

    /** Calls the handler on a message of the thread's own topic; puts any other back in the queue. */
    method Dispatch(ghost others: map<Q.Name, Q.Consumer>) returns (matches: bool)
      requires Valid() && held != null && !handled
      modifies this`held, this`handled, queue`head, queue`tail, queue`size, queue`nodes, queue`contents, queue`repr,
               queue.repr`next
      ensures Valid() && queue.repr == old(queue.repr) && (matches <==> old(held.message.topic) == topic)
      ensures Q.Enabled(old(Shown(others)), if matches then Q.Handle(name) else Q.Requeue(name))
      ensures Shown(others) == Q.Step(old(Shown(others)), if matches then Q.Handle(name) else Q.Requeue(name)).0
      ensures matches ==> queue.nodes == old(queue.nodes) && held == old(held) && handled
      ensures !matches ==> held == null && forall x :: x in queue.nodes <==> x in old(queue.nodes) || x == old(held)
    {
      hide Linked, Shows, Q.Enqueue;
      matches := held.message.topic == topic;
      if matches {
        handled := true;
      } else {
        queue.EnqueueNode(held);
        held := null;
      }
      SamePlace(others, name, old(Consumer()), Consumer());
    }

    method CountConsumed(ghost others: map<Q.Name, Q.Consumer>)
      requires Valid() && held != null && handled
      modifies this`held, queue`totalConsumed
      ensures Valid() && held == null && Shown(others) == Q.Step(old(Shown(others)), Q.Count(name)).0
    {
      hide Linked, Shows;
      queue.totalConsumed := queue.totalConsumed + 1;
      held := null;
      SamePlace(others, name, old(Consumer()), Consumer());
    }

    method Stop(ghost others: map<Q.Name, Q.Consumer>)
      requires Valid()
      modifies this`active
      ensures Valid() && Shown(others) == Q.Step(old(Shown(others)), Q.Stop(name)).0
    {
      hide Linked, Shows;
      active := false;
      SamePlace(others, name, old(Consumer()), Consumer());
    }
  }

  lemma SamePlace(others: map<Q.Name, Q.Consumer>, c: Q.Name, before: Q.Consumer, after: Q.Consumer)
    ensures others[c := before][c := after] == others[c := after]
  {
  }
}
