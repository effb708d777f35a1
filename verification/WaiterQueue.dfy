/**
  * The waiter queues of a channel as they are linked: a coroutine waits by pushing its own
  * node behind the others, and takes it out, wherever it then is, once it is resumed.  Every
  * operation has the effect on the sequence of waiters that the channel's model gives it.
  */
module WaiterQueue {
  import opened ChannelSpec
  import Queue

  class LinkedWaiters {
    const head: Queue.Node
    ghost var nodes: seq<Queue.Node>
    ghost var waiters: seq<Waiter>    // nodes[i] is the node of the coroutine of waiters[i]

    ghost predicate Valid()
      reads this, head, nodes
    {
      |nodes| == |waiters| && Queue.Holds(head, nodes)
    }

    constructor ()
      ensures Valid() && fresh(head) && waiters == []
    {
      head := new Queue.Node();
      nodes, waiters := [], [];
      new;
      Queue.Init(head);
    }

    /** cat_channel_has_producers, cat_channel_has_consumers. */
    method IsEmpty() returns (empty: bool)
      requires Valid()
      ensures empty == (waiters == [])
    {
      empty := Queue.IsEmpty(head, nodes);
    }

    /** The waiter that a push, a pop or a close serves next. */
    method First() returns (node: Queue.Node?)
      requires Valid()
      ensures node == if waiters == [] then null else nodes[0]
    {
      node := Queue.Front(head, nodes);
    }

    /** cat_channel_wait_on up to its wait, by the coroutine that owns the node. */
    method BeginWait(node: Queue.Node, ghost w: Waiter)
      requires Valid() && node != head && node !in nodes
      modifies this, node, head, nodes
      ensures Valid() && waiters == old(waiters) + [w] && nodes == old(nodes) + [node]
    {
      assert Queue.PrevAt([head] + nodes, 0);
      Queue.PushBack(head, node, nodes);
      nodes, waiters := nodes + [node], waiters + [w];
    }

    /** The rest of it, after it was served, timed out or was canceled. */
    method EndWait(node: Queue.Node, ghost i: nat)
      requires Valid() && i < |nodes| && nodes[i] == node
      modifies this, head, nodes
      ensures Valid() && waiters == Without(old(waiters), i) && nodes == Without(old(nodes), i)
    {
      assert Queue.PrevAt([head] + nodes, i + 1) && Queue.NextAt([head] + nodes, i + 1);
      Queue.Remove(node, head, nodes, i);
      nodes, waiters := Without(nodes, i), Without(waiters, i);
    }
  }
}
