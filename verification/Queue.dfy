/**
  * The intrusive circular queue of cat_queue.h and of libuv's queue.h.  A queue is a node
  * like any other: with the nodes linked behind it, it forms a ring.
  */
module Queue {
  class Node {
    var next: Node
    var prev: Node

    /** cat_queue_init. */
    constructor ()
      ensures next == this && prev == this
    {
      next := this;
      prev := this;
    }
  }

  function Succ(r: seq<Node>, i: nat): Node
    requires i < |r|
  {
    if i + 1 < |r| then r[i + 1] else r[0]
  }

  function Pred(r: seq<Node>, i: nat): Node
    requires i < |r|
  {
    if i > 0 then r[i - 1] else r[|r| - 1]
  }

  ghost predicate NextAt(r: seq<Node>, i: nat)
    requires i < |r|
    reads {r[i]}`next
  {
    r[i].next == Succ(r, i)
  }

  ghost predicate PrevAt(r: seq<Node>, i: nat)
    requires i < |r|
    reads {r[i]}`prev
  {
    r[i].prev == Pred(r, i)
  }

  ghost predicate Distinct(r: seq<Node>)
  {
    forall i, j :: 0 <= i < j < |r| ==> r[i] != r[j]
  }

  ghost predicate NextRing(r: seq<Node>)
    reads r`next
  {
    forall i :: 0 <= i < |r| ==> NextAt(r, i)
  }

  ghost predicate PrevRing(r: seq<Node>)
    reads r`prev
  {
    forall i :: 0 <= i < |r| ==> PrevAt(r, i)
  }

  /** The queue q holds exactly these nodes, in this order. */
  ghost predicate Holds(q: Node, items: seq<Node>)
    reads [q] + items
  {
    Distinct([q] + items) && NextRing([q] + items) && PrevRing([q] + items)
  }

  method Init(q: Node)
    modifies q
    ensures Holds(q, [])
  {
    q.next := q;
    q.prev := q;
  }

  method IsEmpty(q: Node, ghost items: seq<Node>) returns (empty: bool)
    requires Holds(q, items)
    ensures empty == (items == [])
  {
    assert NextAt([q] + items, 0);
    empty := q == q.next;
  }

  method Front(q: Node, ghost items: seq<Node>) returns (node: Node?)
    requires Holds(q, items)
    ensures node == if items == [] then null else items[0]
  {
    assert NextAt([q] + items, 0);
    var empty := IsEmpty(q, items);
    node := if !empty then q.next else null;
  }

  method Back(q: Node, ghost items: seq<Node>) returns (node: Node?)
    requires Holds(q, items)
    ensures node == if items == [] then null else items[|items| - 1]
  {
    assert PrevAt([q] + items, 0);
    var empty := IsEmpty(q, items);
    node := if !empty then q.prev else null;
  }

  method PushBack(q: Node, node: Node, ghost items: seq<Node>)
    requires Holds(q, items) && node != q && node !in items
    modifies node, q`prev, q.prev`next
    ensures Holds(q, items + [node])
  {
    ghost var r := [q] + items;
    ghost var last := |r| - 1;
    assert PrevAt(r, 0);
    node.next := q;
    node.prev := q.prev;
    node.prev.next := node;
    q.prev := node;
    ghost var s := [q] + (items + [node]);
    assert s == r + [node];
    forall i | 0 <= i < |s| ensures NextAt(s, i) {
      if i < last { assert old(NextAt(r, i)); }
    }
    forall i | 0 <= i < |s| ensures PrevAt(s, i) {
      if 0 < i <= last { assert old(PrevAt(r, i)); }
    }
  }

  method PushFront(q: Node, node: Node, ghost items: seq<Node>)
    requires Holds(q, items) && node != q && node !in items
    modifies node, q`next, q.next`prev
    ensures Holds(q, [node] + items)
  {
    ghost var r := [q] + items;
    assert NextAt(r, 0);
    node.next := q.next;
    node.prev := q;
    node.next.prev := node;
    q.next := node;
    ghost var s := [q] + ([node] + items);
    assert forall k :: 2 <= k < |s| ==> s[k] == r[k - 1];
    forall i | 0 <= i < |s| ensures NextAt(s, i) {
      if i >= 2 { assert old(NextAt(r, i - 1)); }
    }
    forall i | 0 <= i < |s| ensures PrevAt(s, i) {
      if i == 0 { assert old(PrevAt(r, 0)); }
      if i > 2 { assert old(PrevAt(r, i - 1)); }
    }
  }

  /** The node at any position is taken out; its own links are left as they are. */
  method Remove(node: Node, ghost q: Node, ghost items: seq<Node>, ghost k: nat)
    requires Holds(q, items) && k < |items| && items[k] == node
    modifies node.prev`next, node.next`prev
    ensures Holds(q, items[..k] + items[k + 1..])
    ensures node.next == old(node.next) && node.prev == old(node.prev)
  {
    ghost var r := [q] + items;
    assert NextAt(r, k + 1) && PrevAt(r, k + 1);
    node.prev.next := node.next;
    node.next.prev := node.prev;
    ghost var s := [q] + (items[..k] + items[k + 1..]);
    assert forall i :: 0 <= i <= k ==> s[i] == r[i];
    assert forall i :: k < i < |s| ==> s[i] == r[i + 1];
    forall i | 0 <= i < |s| ensures NextAt(s, i) {
      if i < k { assert old(NextAt(r, i)); }
      if i > k { assert old(NextAt(r, i + 1)); }
    }
    forall i | 0 <= i < |s| ensures PrevAt(s, i) {
      if i <= k { assert old(PrevAt(r, i)); }
      if i > k { assert old(PrevAt(r, i + 1)); }
    }
  }

  /** QUEUE_ADD: the nodes of n go behind those of h, also when either queue is empty. */
  method Add(h: Node, n: Node, ghost a: seq<Node>, ghost b: seq<Node>)
    requires Holds(h, a) && Holds(n, b) && forall x :: x in [h] + a ==> x !in [n] + b
    modifies h`prev, h.prev`next, n.next`prev, n.prev`next
    ensures Holds(h, a + b)
  {
    ghost var r, t := [h] + a, [n] + b;
    assert PrevAt(r, 0) && PrevAt(t, 0) && NextAt(t, 0);
    h.prev.next := n.next;
    n.next.prev := h.prev;
    h.prev := n.prev;
    h.prev.next := h;
    ghost var s := [h] + (a + b);
    assert s == r + b;
    assert forall i :: 0 <= i < |r| ==> s[i] == r[i] && s[i] !in t;
    assert forall i :: |r| <= i < |s| ==> s[i] == t[i - |a|] && s[i] !in r;
    forall i | 0 <= i < |s| ensures NextAt(s, i) {
      if i < |a| { assert old(NextAt(r, i)); }
      if |a| < i < |s| - 1 { assert old(NextAt(t, i - |a|)); }
    }
    forall i | 0 <= i < |s| ensures PrevAt(s, i) {
      if 0 < i <= |a| { assert old(PrevAt(r, i)); }
      if |a| + 1 < i { assert old(PrevAt(t, i - |a|)); }
    }
  }

  /** QUEUE_SPLIT: from q on, the nodes of h move to n. */
  method Split(h: Node, q: Node, n: Node, ghost a: seq<Node>, ghost b: seq<Node>)
    requires Holds(h, a + [q] + b) && n != h && n !in a + [q] + b
    modifies n, h`prev, h.prev`next, q`prev, q.prev`next
    ensures Holds(h, a) && Holds(n, [q] + b)
  {
    ghost var r := [h] + (a + [q] + b);
    ghost var k := |a| + 1;
    assert PrevAt(r, 0) && PrevAt(r, k);
    n.prev := h.prev;
    n.prev.next := n;
    n.next := q;
    h.prev := q.prev;
    h.prev.next := h;
    q.prev := n;
    ghost var s, t := [h] + a, [n] + ([q] + b);
    assert forall i :: 0 <= i < k ==> s[i] == r[i];
    assert forall i :: 0 < i < |t| ==> t[i] == r[i + |a|];
    forall i | 0 <= i < |s| ensures NextAt(s, i) {
      if i < |a| { assert old(NextAt(r, i)); }
    }
    forall i | 0 <= i < |s| ensures PrevAt(s, i) {
      if 0 < i { assert old(PrevAt(r, i)); }
    }
    forall i | 0 <= i < |t| ensures NextAt(t, i) {
      if 0 < i < |t| - 1 { assert old(NextAt(r, i + |a|)); }
    }
    forall i | 0 <= i < |t| ensures PrevAt(t, i) {
      if 1 < i { assert old(PrevAt(r, i + |a|)); }
    }
  }

  /** QUEUE_MOVE: all nodes of h move to n, and h is left empty. */
  method Move(h: Node, n: Node, ghost a: seq<Node>)
    requires Holds(h, a) && n != h && n !in a
    modifies n, h, a
    ensures Holds(h, []) && Holds(n, a)
  {
    var empty := IsEmpty(h, a);
    if empty {
      Init(n);
    } else {
      assert NextAt([h] + a, 0) && PrevAt([h] + a, 0) && PrevAt([h] + a, 1);
      assert a == [] + [a[0]] + a[1..] && a == [a[0]] + a[1..];
      Split(h, h.next, n, [], a[1..]);
    }
  }

  /** CAT_QUEUE_FOREACH visits the nodes in order. */
  method ForEach(q: Node, ghost items: seq<Node>) returns (visited: seq<Node>)
    requires Holds(q, items)
    ensures visited == items
  {
    ghost var r := [q] + items;
    visited := [];
    assert NextAt(r, 0);
    var node := q.next;
    while node != q
      invariant |visited| <= |items| && visited == items[..|visited|] && node == Succ(r, |visited|)
      decreases |items| - |visited|
    {
      assert node == items[|visited|];
      assert NextAt(r, |visited| + 1);
      visited := visited + [node];
      node := node.next;
    }
  }

  /** CAT_QUEUE_REVERSE_FOREACH visits them from the last to the first. */
  method ReverseForEach(q: Node, ghost items: seq<Node>) returns (visited: seq<Node>)
    requires Holds(q, items)
    ensures |visited| == |items| && forall i :: 0 <= i < |items| ==> visited[i] == items[|items| - 1 - i]
  {
    ghost var r := [q] + items;
    visited := [];
    assert PrevAt(r, 0);
    var node := q.prev;
    while node != q
      invariant |visited| <= |items| && node == r[|items| - |visited|]
      invariant forall i :: 0 <= i < |visited| ==> visited[i] == items[|items| - 1 - i]
      decreases |items| - |visited|
    {
      assert PrevAt(r, |items| - |visited|);
      visited := visited + [node];
      node := node.prev;
    }
  }
}
