/**
  * libuv's heap-inl.h: a binary min-heap of linked nodes.  The tree is kept complete by
  * navigating with the bits of the element count.  The ghost sequence `slots` lists the
  * nodes level by level (slot 0 is unused), so "complete binary tree with n nodes and
  * consistent links" is one statement about left, right and parent of every slot.
  */
module PointerHeap {

  class Node<T> {
    const value: T
    var left: Node?<T>
    var right: Node?<T>
    var parent: Node?<T>

    constructor (value: T)
    {
      this.value := value;
      left, right, parent := null, null, null;
    }
  }

  // ---------- the order ----------

  /** What the comparison callback must be: "less than" of a strict weak order. */
  ghost predicate StrictWeakOrder<T(!new)>(less: (T, T) -> bool)
  {
    && (forall a, b :: less(a, b) ==> !less(b, a))
    && (forall a, b, c :: !less(b, a) && !less(c, b) ==> !less(c, a))
  }

  // ---------- the shape ----------

  ghost function At<T>(slots: seq<Node?<T>>, i: nat): Node?<T>
  {
    if i < |slots| then slots[i] else null
  }

  ghost predicate Slots<T>(slots: seq<Node?<T>>)
  {
    && |slots| > 0 && slots[0] == null
    && (forall i :: 1 <= i < |slots| ==> slots[i] != null)
    && (forall i, j :: 1 <= i < j < |slots| ==> slots[i] != slots[j])
  }

  ghost predicate DownAt<T>(slots: seq<Node?<T>>, i: nat)
    requires Slots(slots) && 1 <= i < |slots|
    reads slots[i]
  {
    slots[i].left == At(slots, 2 * i) && slots[i].right == At(slots, 2 * i + 1)
  }

  ghost predicate UpAt<T>(slots: seq<Node?<T>>, i: nat)
    requires Slots(slots) && 1 <= i < |slots|
    reads slots[i]
  {
    slots[i].parent == slots[i / 2]
  }

  /** The node in slot i has the links of its place in the complete tree. */
  ghost predicate LinkedAt<T>(slots: seq<Node?<T>>, i: nat)
    requires Slots(slots) && 1 <= i < |slots|
    reads slots[i]
  {
    DownAt(slots, i) && UpAt(slots, i)
  }

  ghost function Members<T>(slots: seq<Node?<T>>): set<Node<T>>
  {
    set i | 1 <= i < |slots| && slots[i] != null :: slots[i]
  }

  ghost predicate Linked<T>(slots: seq<Node?<T>>)
    requires Slots(slots)
    reads Members(slots)
  {
    forall i :: 1 <= i < |slots| ==> LinkedAt(slots, i)
  }

  ghost predicate OrderedAt<T>(slots: seq<Node?<T>>, less: (T, T) -> bool, i: nat)
    requires Slots(slots) && 2 <= i < |slots|
  {
    !less(slots[i].value, slots[i / 2].value)
  }

  ghost predicate Ordered<T>(slots: seq<Node?<T>>, less: (T, T) -> bool)
    requires Slots(slots)
  {
    forall i :: 2 <= i < |slots| ==> OrderedAt(slots, less, i)
  }

  /** Ordered except that the node in slot k may be out of place, up or down. */
  ghost predicate Around<T>(slots: seq<Node?<T>>, less: (T, T) -> bool, k: nat)
    requires Slots(slots) && 1 <= k
  {
    && (forall i :: 2 <= i < |slots| && i != k && i / 2 != k ==> OrderedAt(slots, less, i))
    && (forall i :: 4 <= i < |slots| && i / 2 == k ==> !less(slots[i].value, slots[k / 2].value))
  }

  ghost predicate ChildrenFit<T>(slots: seq<Node?<T>>, less: (T, T) -> bool, k: nat)
    requires Slots(slots) && 1 <= k
  {
    forall i :: 2 <= i < |slots| && i / 2 == k ==> OrderedAt(slots, less, i)
  }

  // ---------- the bit path ----------

  /** Where a walk from slot pos leads that takes the k low bits of path, lowest first. */
  function Follow(pos: nat, path: nat, k: nat): nat
    decreases k
  {
    if k == 0 then pos else Follow(2 * pos + path % 2, path / 2, k - 1)
  }

  lemma {:induction false} FollowGrows(pos: nat, path: nat, k: nat)
    ensures Follow(pos, path, k) >= pos && (k > 0 && pos > 0 ==> Follow(pos, path, k) / 2 >= pos)
    decreases k
  {
    if k > 0 { FollowGrows(2 * pos + path % 2, path / 2, k - 1); }
  }

  /** The path loop: afterwards, walking it from the root reaches slot n. */
  method PathTo(n: nat) returns (path: nat, k: nat)
    requires n >= 1
    ensures Follow(1, path, k) == n
  {
    path, k := 0, 0;
    var m := n;
    while m >= 2
      invariant m >= 1 && Follow(m, path, k) == n
    {
      path := path * 2 + m % 2;
      assert path / 2 * 2 + path % 2 == path && 2 * (m / 2) + m % 2 == m;
      k := k + 1;
      m := m / 2;
    }
  }

  // ---------- swapping a parent with its child ----------

  ghost function Swapped<T>(slots: seq<Node?<T>>, p: nat, c: nat): seq<Node?<T>>
    requires p < |slots| && c < |slots|
  {
    slots[p := slots[c]][c := slots[p]]
  }

  lemma SwappedSlots<T>(slots: seq<Node?<T>>, p: nat, c: nat)
    requires Slots(slots) && 1 <= p < c < |slots|
    ensures Slots(Swapped(slots, p, c)) && Members(Swapped(slots, p, c)) == Members(slots)
  {
    var s' := Swapped(slots, p, c);
    assert forall i :: 1 <= i < |slots| ==> s'[i] == slots[if i == p then c else if i == c then p else i];
    forall x | x in Members(slots) ensures x in Members(s') {
      var i :| 1 <= i < |slots| && slots[i] == x;
      assert s'[if i == p then c else if i == c then p else i] == x;
    }
    forall x | x in Members(s') ensures x in Members(slots) {
      var i :| 1 <= i < |s'| && s'[i] == x;
    }
  }

  /** The node in slot k is less than its parent: after the swap it may be too small only for slot k / 2. */
  lemma SiftUpStep<T(!new)>(slots: seq<Node?<T>>, less: (T, T) -> bool, k: nat)
    requires Slots(slots) && StrictWeakOrder(less) && 2 <= k < |slots|
    requires Around(slots, less, k) && ChildrenFit(slots, less, k) && !OrderedAt(slots, less, k)
    ensures Slots(Swapped(slots, k / 2, k))
    ensures Around(Swapped(slots, k / 2, k), less, k / 2) && ChildrenFit(Swapped(slots, k / 2, k), less, k / 2)
  {
    var p := k / 2;
    SwappedSlots(slots, p, k);
    var s' := Swapped(slots, p, k);
    assert p >= 2 ==> OrderedAt(slots, less, p);
    forall i | 2 <= i < |s'| && i != p ensures OrderedAt(s', less, i) {
      assert i != k ==> OrderedAt(slots, less, i);
    }
    forall i | 4 <= i < |s'| && i / 2 == p ensures !less(s'[i].value, s'[p / 2].value) {
      assert i != k ==> OrderedAt(slots, less, i);
    }
  }

  /** The node in slot k swaps with its least child, in slot c. */
  lemma SiftDownStep<T(!new)>(slots: seq<Node?<T>>, less: (T, T) -> bool, k: nat, c: nat)
    requires Slots(slots) && StrictWeakOrder(less) && 1 <= k && k == c / 2 && c < |slots|
    requires Around(slots, less, k) && less(slots[c].value, slots[k].value)
    requires forall i :: 2 <= i < |slots| && i / 2 == k ==> !less(slots[i].value, slots[c].value)
    ensures Slots(Swapped(slots, k, c)) && Around(Swapped(slots, k, c), less, c)
  {
    SwappedSlots(slots, k, c);
    var s' := Swapped(slots, k, c);
    forall i | 2 <= i < |s'| && i != c && i / 2 != c ensures OrderedAt(s', less, i) {
      assert i != k && i / 2 != k ==> OrderedAt(slots, less, i);
    }
    forall i | 4 <= i < |s'| && i / 2 == c ensures !less(s'[i].value, s'[c / 2].value) {
      assert OrderedAt(slots, less, i);
    }
  }

  lemma AllOrdered<T>(slots: seq<Node?<T>>, less: (T, T) -> bool, k: nat)
    requires Slots(slots) && 1 <= k < |slots| && Around(slots, less, k) && ChildrenFit(slots, less, k)
    requires k == 1 || OrderedAt(slots, less, k)
    ensures Ordered(slots, less)
  {
  }

  /** The two swapped nodes have each other's links, and point at each other. */
  ghost predicate Exchanged<T>(s: seq<Node?<T>>, p: nat, c: nat)
    requires Slots(s) && 1 <= p && p == c / 2 && c < |s|
    reads s[p], s[c]
  {
    && s[c].left == (if c == 2 * p then s[p] else At(s, 2 * p))
    && s[c].right == (if c == 2 * p then At(s, 2 * p + 1) else s[p])
    && s[c].parent == s[p / 2]
    && s[p].left == At(s, 2 * c) && s[p].right == At(s, 2 * c + 1) && s[p].parent == s[c]
  }

  /** A third node points down, or up, to whichever node is now in the slot it pointed to. */
  ghost predicate NewDownAt<T>(s: seq<Node?<T>>, p: nat, c: nat, i: nat)
    requires Slots(s) && 1 <= p && p == c / 2 && c < |s| && 1 <= i < |s|
    reads s[i]
  {
    && s[i].left == (if 2 * i == p then s[c] else At(s, 2 * i))
    && s[i].right == (if 2 * i + 1 == p then s[c] else At(s, 2 * i + 1))
  }

  ghost predicate NewUpAt<T>(s: seq<Node?<T>>, p: nat, c: nat, i: nat)
    requires Slots(s) && 1 <= p && p == c / 2 && c < |s| && 1 <= i < |s|
    reads s[i]
  {
    s[i].parent == if i / 2 == p then s[c] else if i / 2 == c then s[p] else s[i / 2]
  }

  lemma Relinked<T>(s: seq<Node?<T>>, p: nat, c: nat)
    requires Slots(s) && 1 <= p && p == c / 2 && c < |s|
    requires Exchanged(s, p, c)
    requires forall i :: 1 <= i < |s| && i != p && i != c ==> NewDownAt(s, p, c, i) && NewUpAt(s, p, c, i)
    ensures Slots(Swapped(s, p, c)) && Linked(Swapped(s, p, c))
  {
    SwappedSlots(s, p, c);
    var s' := Swapped(s, p, c);
    forall i | 1 <= i < |s'| ensures LinkedAt(s', i) {
      if i != p && i != c {
        assert NewDownAt(s, p, c, i) && NewUpAt(s, p, c, i);
      }
    }
  }

  /** A pointer to a link: the address of heap->min, or of a node's left or right field. */
  datatype Link<T> = Root | Left(node: Node<T>) | Right(node: Node<T>)

  /** The link that holds the node in slot i. */
  ghost function LinkTo<T>(slots: seq<Node?<T>>, i: nat): Link<T>
    requires Slots(slots) && 1 <= i && i / 2 < |slots|
  {
    if i == 1 then Root else if i % 2 == 0 then Left(slots[i / 2]) else Right(slots[i / 2])
  }

  /** Slot i points down as it should if slot n held x. */
  ghost predicate DownBut<T>(slots: seq<Node?<T>>, n: nat, x: Node?<T>, i: nat)
    requires Slots(slots) && 1 <= i < |slots|
    reads slots[i]
  {
    && slots[i].left == (if 2 * i == n then x else At(slots, 2 * i))
    && slots[i].right == (if 2 * i + 1 == n then x else At(slots, 2 * i + 1))
  }

  class Heap<T(!new)> {
    var min: Node?<T>
    var nelts: nat
    ghost var slots: seq<Node?<T>>

    ghost predicate Shape()
      reads this, Members(slots)
    {
      Slots(slots) && nelts == |slots| - 1 && min == At(slots, 1) && Linked(slots)
    }

    /** The first half of heap_node_swap: the two nodes themselves. */
    method Exchange(parent: Node<T>, child: Node<T>, ghost p: nat, ghost c: nat) returns (sibling: Node?<T>)
      requires Shape() && 1 <= p && p == c / 2 && c < |slots| && slots[p] == parent && slots[c] == child
      modifies parent, child
      ensures Exchanged(slots, p, c)
      ensures sibling == if c == 2 * p then At(slots, 2 * p + 1) else slots[2 * p]
    {
      assert LinkedAt(slots, p) && LinkedAt(slots, c);
      parent.left, parent.right, parent.parent, child.left, child.right, child.parent :=
        child.left, child.right, child.parent, parent.left, parent.right, parent.parent;
      parent.parent := child;
      if child.left == child {
        child.left := parent;
        sibling := child.right;
      } else {
        child.right := parent;
        sibling := child.left;
      }
    }

    /** Then the sibling and the grandchildren learn who is above them. */
    method AdoptBelow(parent: Node<T>, child: Node<T>, sibling: Node?<T>, ghost p: nat, ghost c: nat)
      requires Slots(slots) && 1 <= p && p == c / 2 && c < |slots| && slots[p] == parent && slots[c] == child
      requires Exchanged(slots, p, c) && sibling == if c == 2 * p then At(slots, 2 * p + 1) else slots[2 * p]
      requires forall i :: 1 <= i < |slots| && i != p && i != c ==> UpAt(slots, i)
      modifies Members(slots)`parent
      ensures Exchanged(slots, p, c)
      ensures forall i :: 1 <= i < |slots| && i != p && i != c ==> NewUpAt(slots, p, c, i)
    {
      if sibling != null { sibling.parent := child; }
      if parent.left != null { parent.left.parent := parent; }
      if parent.right != null { parent.right.parent := parent; }
      forall i | 1 <= i < |slots| && i != p && i != c ensures NewUpAt(slots, p, c, i) {
        assert old(UpAt(slots, i));
      }
    }

    /** Last, the link from above. */
    method LinkAbove(parent: Node<T>, child: Node<T>, ghost p: nat, ghost c: nat)
      requires Slots(slots) && 1 <= p && p == c / 2 && c < |slots| && slots[p] == parent && slots[c] == child
      requires Exchanged(slots, p, c)
      requires forall i :: 1 <= i < |slots| && i != p && i != c ==> DownAt(slots, i)
      modifies this`min, Members(slots)`left, Members(slots)`right
      ensures Exchanged(slots, p, c) && min == if p == 1 then child else old(min)
      ensures forall i :: 1 <= i < |slots| && i != p && i != c ==> NewDownAt(slots, p, c, i)
    {
      ghost var g := p / 2;
      assert g > 0 ==> slots[g] in Members(slots) && DownAt(slots, g);
      if child.parent == null {
        min := child;
      } else if child.parent.left == parent {
        child.parent.left := child;
      } else {
        child.parent.right := child;
      }
      forall i | 1 <= i < |slots| && i != p && i != c ensures NewDownAt(slots, p, c, i) {
        assert old(DownAt(slots, i));
      }
    }

    /** heap_node_swap: child moves up to slot p, parent down to slot c. */
    method Swap(parent: Node<T>, child: Node<T>, ghost p: nat, ghost c: nat)
      requires Shape() && 1 <= p && p == c / 2 && c < |slots| && slots[p] == parent && slots[c] == child
      modifies this`min, this`slots, Members(slots)
      ensures Shape() && slots == Swapped(old(slots), p, c)
    {
      var sibling := Exchange(parent, child, p, c);
      forall i | 1 <= i < |slots| && i != p && i != c ensures UpAt(slots, i) && DownAt(slots, i) {
        assert old(LinkedAt(slots, i)) && slots[i] != parent && slots[i] != child;
      }
      label before:
      AdoptBelow(parent, child, sibling, p, c);
      forall i | 1 <= i < |slots| && i != p && i != c ensures DownAt(slots, i) {
        assert old@before(DownAt(slots, i));
      }
      label between:
      LinkAbove(parent, child, p, c);
      forall i | 1 <= i < |slots| && i != p && i != c ensures NewDownAt(slots, p, c, i) && NewUpAt(slots, p, c, i) {
        assert old@between(NewUpAt(slots, p, c, i));
      }
      Relinked(slots, p, c);
      slots := Swapped(slots, p, c);
    }

    // ---------- restoring the order ----------

    /** The last loop of heap_insert and of heap_remove. */
    method SiftUp(node: Node<T>, less: (T, T) -> bool, ghost k0: nat)
      requires Shape() && StrictWeakOrder(less) && 1 <= k0 < |slots| && slots[k0] == node
      requires Around(slots, less, k0) && ChildrenFit(slots, less, k0)
      modifies this`min, this`slots, Members(slots)
      ensures Shape() && Ordered(slots, less) && Members(slots) == old(Members(slots)) && |slots| == old(|slots|)
    {
      ghost var k := k0;
      assert LinkedAt(slots, k);
      while node.parent != null && less(node.value, node.parent.value)
        invariant Shape() && Members(slots) == old(Members(slots)) && |slots| == old(|slots|)
        invariant 1 <= k < |slots| && slots[k] == node && LinkedAt(slots, k)
        invariant Around(slots, less, k) && ChildrenFit(slots, less, k)
        decreases k
      {
        SiftUpStep(slots, less, k);
        SwappedSlots(slots, k / 2, k);
        Swap(node.parent, node, k / 2, k);
        k := k / 2;
        assert LinkedAt(slots, k);
      }
      AllOrdered(slots, less, k);
    }

    /** The least of a node in slot k and its children, in slot c. */
    method Smallest(node: Node<T>, less: (T, T) -> bool, ghost k: nat) returns (smallest: Node<T>, ghost c: nat)
      requires Shape() && StrictWeakOrder(less) && 1 <= k < |slots| && slots[k] == node
      ensures c < |slots| && slots[c] == smallest && (c == k || (k == c / 2 && less(slots[c].value, slots[k].value)))
      ensures c == k ==> ChildrenFit(slots, less, k)
      ensures forall i :: 2 <= i < |slots| && i / 2 == k ==> !less(slots[i].value, slots[c].value)
    {
      assert LinkedAt(slots, k);
      smallest, c := node, k;
      if node.left != null && less(node.left.value, smallest.value) {
        smallest := node.left;
        c := 2 * k;
      }
      if node.right != null && less(node.right.value, smallest.value) {
        smallest := node.right;
        c := 2 * k + 1;
      }
    }

    /** The walk down of heap_remove; k is where the node ends up. */
    method SiftDown(node: Node<T>, less: (T, T) -> bool, ghost k0: nat) returns (ghost k: nat)
      requires Shape() && StrictWeakOrder(less) && 1 <= k0 < |slots| && slots[k0] == node && Around(slots, less, k0)
      modifies this`min, this`slots, Members(slots)
      ensures Shape() && Members(slots) == old(Members(slots)) && |slots| == old(|slots|)
      ensures 1 <= k < |slots| && slots[k] == node && Around(slots, less, k) && ChildrenFit(slots, less, k)
    {
      k := k0;
      while true
        invariant Shape() && Members(slots) == old(Members(slots)) && |slots| == old(|slots|)
        invariant 1 <= k < |slots| && slots[k] == node && Around(slots, less, k)
        decreases |slots| - k
      {
        var smallest, c := Smallest(node, less, k);
        if smallest == node {
          assert c == k;
          break;
        }
        SiftDownStep(slots, less, k, c);
        SwappedSlots(slots, k, c);
        Swap(node, smallest, k, c);
        k := c;
      }
    }

    // ---------- insertion and removal ----------

    function Load(link: Link<T>): Node?<T>
      reads this, if link.Root? then {} else {link.node}
    {
      match link
      case Root => min
      case Left(node) => node.left
      case Right(node) => node.right
    }

    method Store(link: Link<T>, x: Node?<T>, ghost n: nat)
      requires Slots(slots) && 1 <= n && n / 2 < |slots| && link == LinkTo(slots, n)
      requires forall i :: 1 <= i < |slots| ==> DownAt(slots, i)
      modifies this`min, Members(slots)`left, Members(slots)`right
      ensures min == if n == 1 then x else old(min)
      ensures forall i :: 1 <= i < |slots| ==> DownBut(slots, n, x, i)
    {
      assert n > 1 ==> slots[n / 2] in Members(slots);
      match link {
        case Root => min := x;
        case Left(node) => node.left := x;
        case Right(node) => node.right := x;
      }
      forall i | 1 <= i < |slots| ensures DownBut(slots, n, x, i) {
        assert old(DownAt(slots, i)) && (i != n / 2 ==> slots[i] != slots[n / 2]);
      }
    }

    /** Both walks: the bits of n lead from the root to the link of slot n. */
    method Walk(n: nat) returns (up: Link<T>, link: Link<T>)
      requires Shape() && 1 <= n <= |slots|
      ensures n / 2 < |slots| && link == LinkTo(slots, n)
      ensures up == if n == 1 then Root else LinkTo(slots, n / 2)
    {
      var path, k := PathTo(n);
      up, link := Root, Root;
      ghost var at := 1;
      FollowGrows(at, path, k);
      while k > 0
        invariant 1 <= at <= n && Follow(at, path, k) == n
        invariant link == LinkTo(slots, at) && up == if at == 1 then Root else LinkTo(slots, at / 2)
      {
        FollowGrows(at, path, k);
        assert LinkedAt(slots, at) && (at > 1 ==> LinkedAt(slots, at / 2));
        var here := Load(link);
        up := link;
        if path % 2 == 1 { link := Right(here); } else { link := Left(here); }
        at := 2 * at + path % 2;
        path := path / 2;
        k := k - 1;
        FollowGrows(at, path, k);
      }
    }

    constructor ()
      ensures Shape() && slots == [null]
    {
      min, nelts, slots := null, 0, [null];
    }

    /** Adding a last slot to a linked arrangement. */
    lemma Appended(x: Node<T>)
      requires Slots(slots) && x !in Members(slots)
      requires forall i :: 1 <= i < |slots| ==> UpAt(slots, i)
      requires forall i :: 1 <= i < |slots| ==> DownBut(slots, |slots|, x, i)
      requires x.left == null && x.right == null && x.parent == slots[|slots| / 2]
      ensures Slots(slots + [x]) && Linked(slots + [x]) && Members(slots + [x]) == Members(slots) + {x}
    {
      var s' := slots + [x];
      assert forall i :: 1 <= i < |slots| ==> slots[i] in Members(slots);
      assert forall i :: 1 <= i < |s'| ==> s'[i] == if i < |slots| then slots[i] else x;
      forall i | 1 <= i < |s'| ensures LinkedAt(s', i) {
        if i < |slots| { assert UpAt(slots, i) && DownBut(slots, |slots|, x, i); }
      }
      assert s'[|slots|] == x;
    }

    /** Writing a node outside the heap leaves its shape alone. */
    method Detach(x: Node<T>, up: Node?<T>)
      requires Shape() && x !in Members(slots)
      modifies x
      ensures Shape() && x.left == null && x.right == null && x.parent == up
    {
      x.left, x.right, x.parent := null, null, up;
      forall i | 1 <= i < |slots| ensures LinkedAt(slots, i) {
        assert old(LinkedAt(slots, i)) && slots[i] in Members(slots);
      }
    }

    /** heap_insert up to the last loop: the new node goes into the first free slot. */
    method Append(x: Node<T>)
      requires Shape() && x !in Members(slots)
      modifies this, Members(slots), x
      ensures Shape() && slots == old(slots) + [x] && Members(slots) == old(Members(slots)) + {x}
    {
      ghost var n := |slots|;
      Detach(x, null);
      var up, link := Walk(1 + nelts);
      if n > 1 { assert LinkedAt(slots, n / 2) && (n / 2 > 1 ==> LinkedAt(slots, n / 2 / 2)); }
      assert Load(up) == slots[n / 2];
      Detach(x, Load(up));
      Attach(link, x);
    }

    method Attach(link: Link<T>, x: Node<T>)
      requires Shape() && x !in Members(slots) && link == LinkTo(slots, |slots|)
      requires x.left == null && x.right == null && x.parent == slots[|slots| / 2]
      modifies this, Members(slots)
      ensures Shape() && slots == old(slots) + [x] && Members(slots) == old(Members(slots)) + {x}
    {
      forall i | 1 <= i < |slots| ensures UpAt(slots, i) && DownAt(slots, i) { assert LinkedAt(slots, i); }
      Store(link, x, |slots|);
      nelts := nelts + 1;
      forall i | 1 <= i < |slots| ensures UpAt(slots, i) { assert old(UpAt(slots, i)); }
      Appended(x);
      slots := slots + [x];
    }

    /**
      * heap_insert.  The count is a 32-bit unsigned number, so a full heap of 2^32 - 1 nodes
      * is not to be inserted into.
      */
    method Insert(x: Node<T>, less: (T, T) -> bool)
      requires Shape() && StrictWeakOrder(less) && Ordered(slots, less) && x !in Members(slots)
      requires nelts < 0xFFFF_FFFF
      modifies this, Members(slots), x
      ensures Shape() && Ordered(slots, less) && Members(slots) == old(Members(slots)) + {x} && nelts == old(nelts) + 1
    {
      ghost var k := |slots|;
      ghost var s := slots;
      Append(x);
      forall i | 2 <= i < |slots| && i != k ensures OrderedAt(slots, less, i) { assert OrderedAt(s, less, i); }
      SiftUp(x, less, k);
    }

    /** heap_remove's first part: take the node out of the last slot. */
    method Unlink() returns (child: Node<T>)
      requires Shape() && nelts > 0
      modifies this, Members(slots)`left, Members(slots)`right
      ensures Shape() && slots + [child] == old(slots)
      ensures child !in Members(slots) && old(Members(slots)) == Members(slots) + {child}
    {
      ghost var s, n := slots, nelts;
      var up, link := Walk(nelts);
      if n > 1 { assert LinkedAt(slots, n / 2); }
      nelts := nelts - 1;
      child := Load(link);
      assert child == s[n] && child in Members(s);
      forall i | 1 <= i < |slots| ensures DownAt(slots, i) { assert LinkedAt(slots, i); }
      Store(link, null, n);
      ghost var t := s[..n];
      LastOut(s);
      forall i | 1 <= i < n ensures LinkedAt(t, i) {
        assert old(LinkedAt(slots, i)) && DownBut(slots, n, null, i);
      }
      slots := t;
    }

    lemma LastOut(s: seq<Node?<T>>)
      requires Slots(s) && |s| > 1
      ensures Slots(s[..|s| - 1]) && s == s[..|s| - 1] + [s[|s| - 1]]
      ensures s[|s| - 1] !in Members(s[..|s| - 1]) && Members(s) == Members(s[..|s| - 1]) + {s[|s| - 1]}
    {
    }

    /** heap_remove's second part: child takes over the links of the node in slot k. */
    method TakeLinks(node: Node<T>, child: Node<T>, ghost k: nat)
      requires Shape() && 1 <= k < |slots| && slots[k] == node && child !in Members(slots)
      modifies child, Members(slots)`parent
      ensures child.left == At(slots, 2 * k) && child.right == At(slots, 2 * k + 1) && child.parent == slots[k / 2]
      ensures node.parent == slots[k / 2]
      ensures forall i :: 1 <= i < |slots| && i != k ==> slots[i].parent == if i / 2 == k then child else slots[i / 2]
    {
      assert LinkedAt(slots, k);
      assert 2 * k < |slots| ==> slots[2 * k] in Members(slots);
      assert 2 * k + 1 < |slots| ==> slots[2 * k + 1] in Members(slots);
      child.left := node.left;
      child.right := node.right;
      child.parent := node.parent;
      if child.left != null { child.left.parent := child; }
      if child.right != null { child.right.parent := child; }
      forall i | 1 <= i < |slots| && i != k ensures slots[i].parent == if i / 2 == k then child else slots[i / 2] {
        assert old(LinkedAt(slots, i)) && slots[i] in Members(slots);
      }
    }

    method LinkFromAbove(node: Node<T>, child: Node<T>, ghost k: nat)
      requires Slots(slots) && 1 <= k < |slots| && slots[k] == node && node.parent == slots[k / 2]
      requires forall i :: 1 <= i < |slots| ==> DownAt(slots, i)
      modifies this`min, Members(slots)`left, Members(slots)`right
      ensures min == if k == 1 then child else old(min)
      ensures forall i :: 1 <= i < |slots| && i != k ==> DownBut(slots, k, child, i)
    {
      if k > 1 { assert slots[k / 2] in Members(slots) && DownAt(slots, k / 2); }
      if node.parent == null {
        min := child;
      } else if node.parent.left == node {
        node.parent.left := child;
      } else {
        node.parent.right := child;
      }
      forall i | 1 <= i < |slots| && i != k ensures DownBut(slots, k, child, i) {
        assert old(DownAt(slots, i)) && (i != k / 2 ==> slots[i] != slots[k / 2]);
      }
    }

    method Replace(node: Node<T>, child: Node<T>, ghost k: nat)
      requires Shape() && 1 <= k < |slots| && slots[k] == node && child !in Members(slots)
      modifies this, Members(slots), child
      ensures Shape() && slots == old(slots)[k := child] && Members(slots) == old(Members(slots)) - {node} + {child}
    {
      TakeLinks(node, child, k);
      forall i | 1 <= i < |slots| ensures DownAt(slots, i) {
        assert old(LinkedAt(slots, i)) && slots[i] in Members(slots);
      }
      label above:
      LinkFromAbove(node, child, k);
      OneReplaced(slots, k, child);
      ghost var s' := slots[k := child];
      forall i | 1 <= i < |s'| ensures LinkedAt(s', i) {
        if i != k {
          assert DownBut(slots, k, child, i) && slots[i] in Members(slots);
          assert slots[i].parent == old@above(slots[i].parent);
        }
      }
      slots := s';
    }

    lemma OneReplaced(s: seq<Node?<T>>, k: nat, child: Node<T>)
      requires Slots(s) && 1 <= k < |s| && child !in Members(s)
      ensures Slots(s[k := child]) && Members(s[k := child]) == Members(s) - {s[k]} + {child}
    {
      var s' := s[k := child];
      assert forall i :: 1 <= i < |s| ==> s[i] in Members(s);
      forall x | x in Members(s') ensures x in Members(s) - {s[k]} + {child} {
        var i :| 1 <= i < |s'| && s'[i] == x;
        assert i != k ==> s[i] == x;
      }
      forall x | x in Members(s) - {s[k]} + {child} ensures x in Members(s') {
        if x == child {
          assert s'[k] == x;
        } else {
          var i :| 1 <= i < |s| && s[i] == x;
          assert s'[i] == x;
        }
      }
    }

    /** A replacement in slot k may be out of place there, and nowhere else. */
    lemma AroundReplaced(s: seq<Node?<T>>, less: (T, T) -> bool, k: nat, child: Node<T>)
      requires Slots(s) && 1 <= k < |s| && child !in Members(s) && StrictWeakOrder(less) && Ordered(s, less)
      ensures Slots(s[k := child]) && Around(s[k := child], less, k)
    {
      OneReplaced(s, k, child);
      var s' := s[k := child];
      forall i | 2 <= i < |s'| && i != k && i / 2 != k ensures OrderedAt(s', less, i) { assert OrderedAt(s, less, i); }
      forall i | 4 <= i < |s'| && i / 2 == k ensures !less(s'[i].value, s'[k / 2].value) {
        assert OrderedAt(s, less, i) && OrderedAt(s, less, k);
      }
    }

    /** heap_remove of any member; on an empty heap it does nothing. */
    method Remove(node: Node?<T>, less: (T, T) -> bool)
      requires Shape() && StrictWeakOrder(less) && Ordered(slots, less)
      requires nelts > 0 ==> node != null && node in Members(slots)
      modifies this, Members(slots)
      ensures Shape() && Ordered(slots, less)
      ensures old(nelts) == 0 ==> slots == old(slots)
      ensures old(nelts) > 0 ==> Members(slots) == old(Members(slots)) - {node} && nelts == old(nelts) - 1
    {
      if nelts == 0 { return; }
      ghost var s := slots;
      var child := Unlink();
      forall i | 2 <= i < |slots| ensures OrderedAt(slots, less, i) { assert OrderedAt(s, less, i); }
      if child == node {
        // The source now clears heap->min if it still is child; unlinking has already done so.
        assert child != min;
        return;
      }
      ghost var k :| 1 <= k < |slots| && slots[k] == node;
      AroundReplaced(slots, less, k, child);
      Replace(node, child, k);
      k := SiftDown(child, less, k);
      SiftUp(child, less, k);
    }

    /** heap_dequeue. */
    method Dequeue(less: (T, T) -> bool)
      requires Shape() && StrictWeakOrder(less) && Ordered(slots, less)
      modifies this, Members(slots)
      ensures Shape() && Ordered(slots, less)
      ensures old(min) == null ==> slots == old(slots)
      ensures old(min) != null ==> Members(slots) == old(Members(slots)) - {old(min)} && nelts == old(nelts) - 1
    {
      assert nelts > 0 ==> min == slots[1] && min in Members(slots);
      Remove(min, less);
    }
  }

  /** The root of an ordered heap is least: nothing in the heap is less than it. */
  lemma {:induction false} RootIsLeast<T(!new)>(slots: seq<Node?<T>>, less: (T, T) -> bool, i: nat)
    requires Slots(slots) && StrictWeakOrder(less) && Ordered(slots, less) && 1 <= i < |slots|
    ensures !less(slots[i].value, slots[1].value)
  {
    if i > 1 {
      assert OrderedAt(slots, less, i);
      RootIsLeast(slots, less, i / 2);
    }
  }
}
