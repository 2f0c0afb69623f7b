/**
 * The circular doubly linked list with a sentinel that both netd's List template and the
 * adb event loop's pending list are made of.
 */
module Ring {

  class Node<T> {
    var val: T
    var next: Node?<T>
    var prev: Node?<T>

    constructor (val: T)
      ensures this.val == val && next == null && prev == null
    {
      this.val := val;
      next, prev := null, null;
    }
  }

  /** The nodes once around, from the sentinel back to itself. */
  ghost function Around<T>(s: Node<T>, ring: seq<Node<T>>): seq<Node<T>> {
    [s] + ring + [s]
  }

  ghost predicate Distinct<T(!new)>(ring: seq<Node<T>>) {
    forall i, j | 0 <= i < j < |ring| :: ring[i] != ring[j]
  }

  /** `next` runs through the ring in order, `prev` back, and no node occurs twice. */
  ghost predicate IsRing<T(!new)>(s: Node<T>, ring: seq<Node<T>>)
    reads s`next, s`prev, ring`next, ring`prev
  {
    && s !in ring && Distinct(ring)
    && var c := Around(s, ring);
       forall i | 0 <= i <= |ring| :: c[i].next == c[i + 1] && c[i + 1].prev == c[i]
  }

  /** The node at position k; the sentinel is one past the last. */
  ghost function NodeAt<T>(s: Node<T>, ring: seq<Node<T>>, k: nat): Node<T>
    requires k <= |ring|
  {
    if k < |ring| then ring[k] else s
  }

  /** Where `next` leads from the sentinel and from the k-th node. */
  lemma NextAt<T(!new)>(s: Node<T>, ring: seq<Node<T>>, k: nat)
    requires IsRing(s, ring) && k <= |ring|
    ensures s.next == NodeAt(s, ring, 0)
    ensures k < |ring| ==> ring[k].next == NodeAt(s, ring, k + 1)
  {
    var c := Around(s, ring);
    assert c[0].next == c[1];
    if k < |ring| {
      assert c[k + 1].next == c[k + 2];
    }
  }

  /** Different positions are different nodes. */
  lemma PositionsDiffer<T(!new)>(s: Node<T>, ring: seq<Node<T>>)
    requires IsRing(s, ring)
    ensures forall i, j | 0 <= i < j <= |ring| :: NodeAt(s, ring, i) != NodeAt(s, ring, j)
  {
  }

  ghost function Vals<T>(ns: seq<Node<T>>): (s: seq<T>)
    reads ns`val
    ensures |s| == |ns| && forall i | 0 <= i < |s| :: s[i] == ns[i].val
  {
    if ns == [] then [] else [ns[0].val] + Vals(ns[1..])
  }

  /** Links `e` in front of `pos`, the k-th node, or the sentinel when k is the length. */
  method LinkBefore<T(!new)>(s: Node<T>, ghost ring: seq<Node<T>>, ghost k: nat, pos: Node<T>, e: Node<T>)
    requires IsRing(s, ring) && k <= |ring| && pos == Around(s, ring)[k + 1]
    requires e != s && e !in ring
    modifies s`next, s`prev, ring`next, ring`prev, e`next, e`prev
    ensures IsRing(s, ring[..k] + [e] + ring[k..])
  {
    ghost var c := Around(s, ring);
    ghost var ring' := ring[..k] + [e] + ring[k..];
    ghost var c' := Around(s, ring');
    assert pos.prev == c[k];
    e.next := pos;
    e.prev := pos.prev;
    e.prev.next := e;
    pos.prev := e;
    assert c' == c[..k + 1] + [e] + c[k + 1..];
    forall i | 0 <= i <= |ring'| ensures c'[i].next == c'[i + 1] && c'[i + 1].prev == c'[i] {
      if i < k {
        assert c'[i] == c[i] && c'[i + 1] == c[i + 1];
      } else if i > k + 1 {
        assert c'[i] == c[i - 1] && c'[i + 1] == c[i];
      }
    }
  }

  /** Takes the k-th node out of the ring; the node keeps its own links. */
  method Unlink<T(!new)>(s: Node<T>, ghost ring: seq<Node<T>>, ghost k: nat, e: Node<T>)
    requires IsRing(s, ring) && k < |ring| && e == ring[k]
    modifies s`next, s`prev, ring`next, ring`prev
    ensures IsRing(s, ring[..k] + ring[k + 1..])
    ensures e.next == old(e.next) && e.prev == old(e.prev)
  {
    ghost var c := Around(s, ring);
    ghost var ring' := ring[..k] + ring[k + 1..];
    ghost var c' := Around(s, ring');
    assert c[k + 1] == e && e.prev == c[k] && e.next == c[k + 2];
    assert c' == c[..k + 1] + c[k + 2..];
    Apart(s, ring, k);
    e.prev.next := e.next;
    e.next.prev := e.prev;
    forall i | 0 <= i <= |ring'| ensures c'[i].next == c'[i + 1] && c'[i + 1].prev == c'[i] {
      if i < k {
        assert c'[i] == c[i] && c'[i + 1] == c[i + 1];
        assert c[i] != c[k];
      } else if i > k {
        assert c'[i] == c[i + 1] && c'[i + 1] == c[i + 2];
      }
    }
  }

  /** Unlinks the k-th node and clears its links. */
  method Detach<T(!new)>(s: Node<T>, ghost ring: seq<Node<T>>, ghost k: nat, e: Node<T>)
    requires IsRing(s, ring) && k < |ring| && e == ring[k]
    modifies s`next, s`prev, ring`next, ring`prev
    ensures IsRing(s, ring[..k] + ring[k + 1..])
    ensures e.next == null && e.prev == null
  {
    hide IsRing;
    ghost var ring' := ring[..k] + ring[k + 1..];
    Without(s, ring, k);
    Unlink(s, ring, k, e);
    label unlinked:
    e.next := null;
    e.prev := null;
    assert forall i | 0 <= i < |ring'| :: ring'[i] != e;
    assert IsRing(s, ring');
  }

  lemma Without<T(!new)>(s: Node<T>, ring: seq<Node<T>>, k: nat)
    requires IsRing(s, ring) && k < |ring|
    ensures ring[k] != s && forall x :: x in ring[..k] + ring[k + 1..] <==> x in ring && x != ring[k]
    ensures var ring' := ring[..k] + ring[k + 1..]; forall i | 0 <= i < |ring'| :: ring'[i] != ring[k]
  {
  }

  lemma FirstAt<T(!new)>(s: Node<T>, ring: seq<Node<T>>, k: nat)
    requires IsRing(s, ring) && k < |ring|
    ensures ring[k] !in ring[..k]
  {
  }

  /** The positions of a ring are different nodes, except that the sentinel closes the circle. */
  lemma Apart<T(!new)>(s: Node<T>, ring: seq<Node<T>>, k: nat)
    requires s !in ring && Distinct(ring) && k <= |ring|
    ensures forall i | 0 <= i <= |ring| && i != k :: Around(s, ring)[i] != Around(s, ring)[k]
    ensures forall i | 1 <= i <= |ring| + 1 && i != k + 1 :: Around(s, ring)[i] != Around(s, ring)[k + 1]
  {
  }
}
