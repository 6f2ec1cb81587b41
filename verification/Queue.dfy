/**
 * The intrusive circular queues: nodes with two links each, and a head that is a node too.
 * The other models use sequences; here is what the operations on links do to them.
 */
module Queue {
  import opened Common

  /** struct uv__queue. */
  class Node {
    var next: Node
    var prev: Node

    /** uv__queue_init. */
    constructor ()
      ensures IsQueue(this, []) && next == prev == this
    {
      next, prev := this, this;
    }
  }

  /** Going round: the head, the nodes in order, and the head again. */
  function At(h: Node, s: seq<Node>, i: nat): Node
    requires i <= |s| + 1
  {
    if 0 < i <= |s| then s[i - 1] else h
  }

  /** The nodes of s, in that order, are linked into the queue with head h. */
  ghost predicate IsQueue(h: Node, s: seq<Node>)
    reads h, s
  {
    && h !in s && NoDuplicates(s)
    && forall i :: 0 <= i <= |s| ==> At(h, s, i).next == At(h, s, i + 1) && At(h, s, i + 1).prev == At(h, s, i)
  }

  /** uv__queue_empty, of a head or of any node. */
  predicate Empty(q: Node)
    reads q
  {
    q == q.next
  }

  /** A head is empty exactly if nothing is queued; a queued node never looks empty. */
  lemma EmptyMeans(h: Node, s: seq<Node>)
    requires IsQueue(h, s)
    ensures Empty(h) <==> s == []
    ensures forall i :: 0 <= i < |s| ==> !Empty(s[i])
    ensures h.next == At(h, s, 1) && h.prev == At(h, s, |s|)
  {
    assert At(h, s, 0).next == At(h, s, 1) && At(h, s, |s| + 1).prev == At(h, s, |s|);
    forall i | 0 <= i < |s| ensures !Empty(s[i]) {
      assert At(h, s, i + 1).next == At(h, s, i + 2);
    }
  }

  /** The links between neighbours, and who they are, without the wraparound. */
  lemma Neighbours(h: Node, s: seq<Node>, i: nat)
    requires IsQueue(h, s) && i < |s|
    ensures s[i].prev == At(h, s, i) && s[i].next == At(h, s, i + 2)
    ensures s[i].prev != s[i] && s[i].next != s[i]
  {
    assert At(h, s, i).next == At(h, s, i + 1) && At(h, s, i + 1).next == At(h, s, i + 2);
  }

  /** uv__queue_init on a node that may have been in use. */
  method Init(q: Node)
    modifies q
    ensures IsQueue(q, []) && q.next == q.prev == q
  {
    q.next := q;
    q.prev := q;
  }

  /** uv__queue_insert_tail. */
  method InsertTail(h: Node, q: Node, ghost s: seq<Node>)
    requires IsQueue(h, s) && q != h && q !in s
    modifies q, h, h.prev
    ensures IsQueue(h, s + [q]) && h.prev == q && q.next == h && q.prev == old(h.prev)
  {
    assert At(h, s, |s|).next == At(h, s, |s| + 1) && At(h, s, |s| + 1).prev == At(h, s, |s|);
    ghost var t := s + [q];
    q.next := h;
    q.prev := h.prev;
    q.prev.next := q;
    h.prev := q;
    forall i | 0 <= i <= |t| ensures At(h, t, i).next == At(h, t, i + 1) && At(h, t, i + 1).prev == At(h, t, i) {
      if i < |s| {
        assert old(At(h, s, i).next == At(h, s, i + 1) && At(h, s, i + 1).prev == At(h, s, i));
      }
    }
  }

  /** Of a sequence without duplicates, what is left is what stands before and behind. */
  lemma {:induction false} WithoutAt(s: seq<Node>, i: nat)
    requires NoDuplicates(s) && i < |s|
    ensures Without(s, s[i]) == s[..i] + s[i + 1..]
    decreases |s|
  {
    var init, last := s[..|s| - 1], s[|s| - 1];
    if i == |s| - 1 {
      assert last !in init;
    } else {
      WithoutAt(init, i);
      assert init[..i] == s[..i] && init[i + 1..] + [last] == s[i + 1..];
      assert (s[..i] + init[i + 1..]) + [last] == s[..i] + (init[i + 1..] + [last]);
    }
  }

  /** uv__queue_remove of the i-th node, whose own links stay as they were. */
  method Remove(q: Node, ghost h: Node, ghost s: seq<Node>, ghost i: nat)
    requires IsQueue(h, s) && i < |s| && q == s[i]
    modifies q.prev, q.next
    ensures IsQueue(h, Without(s, q)) && Without(s, q) == s[..i] + s[i + 1..]
    ensures q.prev == old(q.prev) == At(h, s, i) && q.next == old(q.next) == At(h, s, i + 2)
  {
    hide Without;
    WithoutAt(s, i);
    Neighbours(h, s, i);
    ghost var t := s[..i] + s[i + 1..];
    q.prev.next := q.next;
    q.next.prev := q.prev;
    forall j | 0 <= j <= |t| ensures At(h, t, j).next == At(h, t, j + 1) && At(h, t, j + 1).prev == At(h, t, j) {
      ghost var k := if j <= i then j else j + 1;
      assert old(At(h, s, k).next == At(h, s, k + 1) && At(h, s, k + 1).prev == At(h, s, k));
    }
  }

  /** uv__queue_move: all nodes go over to n, and h is empty. */
  method Move(h: Node, n: Node, ghost s: seq<Node>)
    requires IsQueue(h, s) && n != h && n !in s
    modifies h, n, s
    ensures IsQueue(n, s) && IsQueue(h, [])
  {
    EmptyMeans(h, s);
    if Empty(h) {
      Init(n);
    } else {
      Split(h, h.next, n, s);
    }
  }

  /** uv__queue_split at the first node. */
  method Split(h: Node, q: Node, n: Node, ghost s: seq<Node>)
    requires IsQueue(h, s) && s != [] && q == s[0] && n != h && n !in s
    modifies h, n, s
    ensures IsQueue(n, s) && IsQueue(h, [])
  {
    assert At(h, s, |s|).next == At(h, s, |s| + 1) && At(h, s, 0).next == At(h, s, 1);
    n.prev := h.prev;
    n.prev.next := n;
    n.next := q;
    h.prev := q.prev;
    h.prev.next := h;
    q.prev := n;
    forall i | 0 <= i <= |s| ensures At(n, s, i).next == At(n, s, i + 1) && At(n, s, i + 1).prev == At(n, s, i) {
      assert old(At(h, s, i).next == At(h, s, i + 1) && At(h, s, i + 1).prev == At(h, s, i));
    }
  }

  // ---------- Removing a node again ----------

  /**
   * uv__queue_remove of a node that had been the first of the queue, and was removed
   * before: it leaves the queue as it is exactly if the node behind it then is the first now.
   */
  method RemoveAgain(q: Node, ghost h: Node, ghost s: seq<Node>)
    requires IsQueue(h, s) && q != h && q !in s && q.prev == h && q.next != q
    modifies q.prev, q.next
    ensures IsQueue(h, s) <==> old(q.next) == At(h, s, 1)
    ensures h.next == old(q.next) && h.next.prev == h
    ensures IsQueue(h, s) ==> forall x: Node :: old(allocated(x)) ==> x.next == old(x.next) && x.prev == old(x.prev)
  {
    assert At(h, s, 0).next == At(h, s, 1) && At(h, s, 1).prev == At(h, s, 0);
    q.prev.next := q.next;
    q.next.prev := q.prev;
    assert At(h, s, 0).next == q.next;
  }

  /** A queue of two nodes of which the first is removed, with its links still in it. */
  method TakeFirst() returns (h: Node, a: Node, b: Node)
    ensures fresh(h) && fresh(a) && fresh(b) && a != h && a != b
    ensures IsQueue(h, [b]) && h.next == h.prev == b && a.prev == b.prev == h && a.next == b && b.next == h
  {
    hide Without;
    h := new Node();
    a := new Node();
    b := new Node();
    InsertTail(h, a, []);
    assert [] + [a] == [a];
    InsertTail(h, b, [a]);
    assert [a] + [b] == [a, b];
    Neighbours(h, [a, b], 0);
    Remove(a, h, [a, b], 0);
    assert [a, b][..0] + [a, b][1..] == [b];
    Neighbours(h, [b], 0);
    EmptyMeans(h, [b]);
    hide IsQueue;
  }

  /**
   * The second node then goes into another queue, and the first is removed once more: its
   * links bring the second one back to where it was, and neither queue is one any longer.
   */
  method RelinksANeighbour() returns (h: Node, other: Node, a: Node, b: Node)
    ensures h.next == b == other.next && b.prev == h
    ensures !IsQueue(h, []) && !IsQueue(other, [b])
  {
    hide Without;
    h, a, b := TakeFirst();
    other := new Node();
    Remove(b, h, [b], 0);
    assert [b][..0] + [b][1..] == [];
    InsertTail(other, b, []);
    assert [] + [b] == [b];
    EmptyMeans(other, [b]);
    RemoveAgain(a, h, []);
    if IsQueue(other, [b]) {
      Neighbours(other, [b], 0);
      assert false;
    }
  }
}
