/** netd's List template: a sentinel ring that is to behave like a sequence. */
module NetdList {
  import opened Ring

  class List<T(0,!new)> {
    /** mpMiddle: the sentinel; its value is never looked at. */
    const middle: Node<T>
    ghost var nodes: seq<Node<T>>

    ghost predicate Valid()
      reads this, middle`next, middle`prev, nodes`next, nodes`prev
    {
      IsRing(middle, nodes)
    }

    ghost function Contents(): seq<T>
      reads this, nodes`val
    {
      Vals(nodes)
    }

    /** The node an iterator at position `k` points to. */
    ghost function Iter(k: nat): Node<T>
      reads this
      requires k <= |nodes|
    {
      NodeAt(middle, nodes, k)
    }

    constructor ()
      ensures Valid() && Contents() == [] && nodes == [] && fresh(middle)
    {
      var val: T := *;
      middle := new Node<T>(val);
      nodes := [];
      new;
      middle.prev := middle;
      middle.next := middle;
    }

    method Begin() returns (it: Node<T>)
      requires Valid()
      ensures it == Iter(0)
    {
      NextAt(middle, nodes, 0);
      it := middle.next;
    }

    method Empty() returns (b: bool)
      requires Valid()
      ensures b <==> Contents() == []
    {
      NextAt(middle, nodes, 0);
      b := middle.next == middle;
    }

    method Insert(ghost k: nat, pos: Node<T>, val: T) returns (n: Node<T>)
      requires Valid() && k <= |nodes| && pos == Iter(k)
      modifies this`nodes, middle`next, middle`prev, nodes`next, nodes`prev
      ensures Valid() && fresh(n)
      ensures nodes == old(nodes)[..k] + [n] + old(nodes)[k..]
      ensures Contents() == old(Contents())[..k] + [val] + old(Contents())[k..]
    {
      hide IsRing, Vals, Around, NodeAt;
      n := new Node<T>(val);
      AroundAt(middle, nodes, k);
      LinkBefore(middle, nodes, k, pos, n);
      ValsSplice(nodes, k, n);
      nodes := nodes[..k] + [n] + nodes[k..];
    }

    method PushFront(val: T)
      requires Valid()
      modifies this`nodes, middle`next, middle`prev, nodes`next, nodes`prev
      ensures Valid() && fresh(set n | n in nodes && n !in old(nodes))
      ensures Contents() == [val] + old(Contents())
    {
      var it := Begin();
      var n := Insert(0, it, val);
    }

    method PushBack(val: T)
      requires Valid()
      modifies this`nodes, middle`next, middle`prev, nodes`next, nodes`prev
      ensures Valid() && fresh(set n | n in nodes && n !in old(nodes))
      ensures Contents() == old(Contents()) + [val]
    {
      var n := Insert(|nodes|, middle, val);
    }

    /** Returns the node after the erased one. */
    method Erase(ghost k: nat, pos: Node<T>) returns (next: Node<T>)
      requires Valid() && k < |nodes| && pos == nodes[k]
      modifies this`nodes, middle`next, middle`prev, nodes`next, nodes`prev
      ensures Valid()
      ensures nodes == old(nodes)[..k] + old(nodes)[k + 1..] && next == Iter(k)
      ensures Contents() == old(Contents())[..k] + old(Contents())[k + 1..]
    {
      NextAt(middle, nodes, k);
      Unlink(middle, nodes, k, pos);
      next := pos.next;
      nodes := nodes[..k] + nodes[k + 1..];
    }

    method EraseRange(ghost i: nat, first: Node<T>, ghost j: nat, last: Node<T>) returns (r: Node<T>)
      requires Valid() && i <= j <= |nodes| && first == Iter(i) && last == Iter(j)
      modifies this`nodes, middle`next, middle`prev, nodes`next, nodes`prev
      ensures Valid()
      ensures nodes == old(nodes)[..i] + old(nodes)[j..]
      ensures Contents() == old(Contents())[..i] + old(Contents())[j..]
      ensures r == last == Iter(i)
    {
      hide IsRing, Vals, NodeAt, Erasing;
      var it := first;
      ghost var k, before, vals := i, nodes, Contents();
      assert forall n | i <= n < j :: NodeAt(middle, before, n) != last by { PositionsDiffer(middle, before); }
      StartErasing(i);
      while it != last
        invariant i <= k <= j && Erasing(before, vals, i, k) && it == NodeAt(middle, before, k)
        decreases j - k
      {
        ErasingFacts(before, vals, i, k);
        it := EraseNext(before, vals, i, k, it);
        k := k + 1;
      }
      ErasingFacts(before, vals, i, k);
      MovedUp(middle, before, i, j);
      r := last;
    }

    /** Between two steps of a range erase: elements `i` to `k` of the old list are gone. */
    ghost predicate Erasing(before: seq<Node<T>>, vals: seq<T>, i: nat, k: nat)
      reads this, middle`next, middle`prev, nodes
    {
      Valid() && i <= k <= |before| == |vals| && Cut(before, i, k, nodes) && Cut(vals, i, k, Contents())
    }

    lemma StartErasing(i: nat)
      requires Valid() && i <= |nodes|
      ensures Erasing(nodes, Contents(), i, i)
    {
      hide Vals;
      CutNone(nodes, i);
      CutNone(Contents(), i);
    }

    lemma ErasingFacts(before: seq<Node<T>>, vals: seq<T>, i: nat, k: nat)
      requires Erasing(before, vals, i, k)
      ensures Valid() && i <= k <= |before| == |vals|
      ensures nodes == before[..i] + before[k..] && Contents() == vals[..i] + vals[k..]
      ensures forall n | 0 <= n < |nodes| :: nodes[n] in before
    {
      hide IsRing, Vals;
      CutAt(middle, before, i, k, nodes);
    }

    method EraseNext(ghost before: seq<Node<T>>, ghost vals: seq<T>, ghost i: nat, ghost k: nat, it: Node<T>) returns (next: Node<T>)
      requires Erasing(before, vals, i, k) && k < |before| && it == NodeAt(middle, before, k)
      modifies this`nodes, middle`next, middle`prev, nodes`next, nodes`prev
      ensures Erasing(before, vals, i, k + 1) && next == NodeAt(middle, before, k + 1)
    {
      hide IsRing, Vals, Cut, NodeAt;
      ghost var ns, vs := nodes, Contents();
      CutAt(middle, before, i, k, nodes);
      next := Erase(i, it);
      CutStep(before, i, k, ns);
      CutStep(vals, i, k, vs);
      CutAt(middle, before, i, k + 1, nodes);
    }

    /** Deletes every node and closes the sentinel on itself. */
    method Clear()
      requires Valid()
      modifies this`nodes, middle`next, middle`prev
      ensures Valid() && Contents() == []
    {
      var current := middle.next;
      ghost var k := 0;
      NextAt(middle, nodes, 0);
      while current != middle
        invariant Valid() && k <= |nodes| && current == Iter(k)
        decreases |nodes| - k
      {
        NextAt(middle, nodes, k);
        current := current.next;
        k := k + 1;
      }
      middle.prev := middle;
      middle.next := middle;
      nodes := [];
    }

    /** distance(begin(), end()). */
    method Size() returns (count: nat)
      requires Valid()
      ensures count == |Contents()|
    {
      var first := Begin();
      count := 0;
      while first != middle
        invariant count <= |nodes| && first == Iter(count)
        decreases |nodes| - count
      {
        NextAt(middle, nodes, count);
        first := first.next;
        count := count + 1;
      }
    }

    /** No node is shared with another list. */
    ghost predicate Apart(right: List<T>)
      reads this, right
    {
      middle != right.middle && middle !in right.nodes && right.middle !in nodes && forall n | n in nodes :: n !in right.nodes
    }

    /** One step of a range insert: copy the element at `src`, move `src` on. */
    method CopyOne(ghost k: nat, pos: Node<T>, right: List<T>, ghost b: nat, src: Node<T>) returns (n: Node<T>, next: Node<T>)
      requires Valid() && right.Valid() && right != this && Apart(right)
      requires k <= |nodes| && pos == Iter(k) && b < |right.nodes| && src == right.nodes[b]
      modifies this`nodes, middle`next, middle`prev, nodes`next, nodes`prev
      ensures Valid() && right.Valid() && Apart(right) && fresh(n)
      ensures nodes == old(nodes)[..k] + [n] + old(nodes)[k..]
      ensures right.nodes == old(right.nodes) && next == NodeAt(right.middle, old(right.nodes), b + 1)
      ensures Contents() == old(Contents())[..k] + [right.Contents()[b]] + old(Contents())[k..]
    {
      hide IsRing;
      n := Insert(k, pos, src.val);
      forall x | x in right.nodes ensures x.next == old(x.next) && x.prev == old(x.prev) {
        assert x !in old(nodes);
      }
      assert right.middle.next == old(right.middle.next);
      NextAt(right.middle, right.nodes, b);
      next := src.next;
    }

    /** Between two steps of a range insert: elements `a` to `b` of `right` stand before position `k` of the old list. */
    ghost predicate Copying(before: seq<Node<T>>, vals: seq<T>, k: nat, added: seq<Node<T>>, right: List<T>, more: seq<T>, a: nat, b: nat)
      reads this, middle`next, middle`prev, nodes, right, right.middle`next, right.middle`prev, right.nodes
    {
      && Valid() && right.Valid() && right != this && Apart(right)
      && right.Contents() == more && |more| == |right.nodes| && a <= b <= |more|
      && k <= |before| == |vals| && |added| == b - a
      && Spliced(before, k, added, nodes) && Spliced(vals, k, more[a..b], Contents())
    }

    lemma CopyingFacts(before: seq<Node<T>>, vals: seq<T>, k: nat, added: seq<Node<T>>, right: List<T>, more: seq<T>, a: nat, b: nat)
      requires Copying(before, vals, k, added, right, more, a, b)
      ensures right.middle !in right.nodes && |more| == |right.nodes| && k <= |before| && a <= b <= |more|
      ensures forall n | 0 <= n < |nodes| :: nodes[n] in before || nodes[n] in added
    {
      SplicedAt(middle, before, k, added, nodes);
    }

    method CopyNext(ghost before: seq<Node<T>>, ghost vals: seq<T>, ghost k: nat, ghost added: seq<Node<T>>,
        pos: Node<T>, right: List<T>, ghost more: seq<T>, ghost a: nat, ghost b: nat, src: Node<T>)
      returns (n: Node<T>, next: Node<T>)
      requires Copying(before, vals, k, added, right, more, a, b)
      requires pos == NodeAt(middle, before, k) && b < |right.nodes| && src == right.nodes[b]
      modifies this`nodes, middle`next, middle`prev, nodes`next, nodes`prev
      ensures fresh(n) && right.nodes == old(right.nodes) && next == NodeAt(right.middle, right.nodes, b + 1)
      ensures Copying(before, vals, k, added + [n], right, more, a, b + 1)
    {
      hide IsRing, Vals, Spliced, NodeAt;
      ghost var ns, vs := nodes, Contents();
      SplicedAt(middle, before, k, added, nodes);
      SpliceStep(vals, k, more[a..b], more[b], vs);
      SliceGrows(more, a, b);
      n, next := CopyOne(k + |added|, pos, right, b, src);
      SpliceStep(before, k, added, n, ns);
    }

    /** Copies the elements of `right` from position `a` up to `c`, in order, before `pos`. */
    method InsertRange(ghost k: nat, pos: Node<T>, right: List<T>, ghost a: nat, first: Node<T>, ghost c: nat, last: Node<T>)
      requires Valid() && right.Valid() && right != this && Apart(right)
      requires k <= |nodes| && pos == Iter(k) && a <= c <= |right.nodes| && first == right.Iter(a) && last == right.Iter(c)
      modifies this`nodes, middle`next, middle`prev, nodes`next, nodes`prev
      ensures Valid() && Apart(right) && right.Valid()
      ensures Contents() == old(Contents())[..k] + right.Contents()[a..c] + old(Contents())[k..]
    {
      hide IsRing, Vals, Spliced, NodeAt, Copying;
      var src := first;
      ghost var before, vals, theirs, more := nodes, Contents(), right.nodes, right.Contents();
      ghost var b, added: seq<Node<T>> := a, [];
      assert forall n | a <= n < c :: NodeAt(right.middle, theirs, n) != last by { PositionsDiffer(right.middle, theirs); }
      StartCopying(k, right, a);
      while src != last
        invariant Copying(before, vals, k, added, right, more, a, b) && right.nodes == theirs
        invariant a <= b <= c && src == NodeAt(right.middle, theirs, b) && fresh(added)
        decreases c - b
      {
        CopyingFacts(before, vals, k, added, right, more, a, b);
        AtEnd(right.middle, theirs, b);
        var n;
        n, src := CopyNext(before, vals, k, added, pos, right, more, a, b, src);
        added, b := added + [n], b + 1;
      }
      DoneCopying(before, vals, k, added, right, more, a, c);
    }

    lemma StartCopying(k: nat, right: List<T>, a: nat)
      requires Valid() && right.Valid() && right != this && Apart(right) && k <= |nodes| && a <= |right.nodes|
      ensures Copying(nodes, Contents(), k, [], right, right.Contents(), a, a)
    {
      hide IsRing, Vals;
      SpliceNone(nodes, k);
      SpliceNone(Contents(), k);
      assert right.Contents()[a..a] == [];
    }

    lemma DoneCopying(before: seq<Node<T>>, vals: seq<T>, k: nat, added: seq<Node<T>>, right: List<T>, more: seq<T>, a: nat, c: nat)
      requires Copying(before, vals, k, added, right, more, a, c)
      ensures Valid() && Apart(right) && right.Valid() && right.Contents() == more && a <= c <= |more|
      ensures k <= |vals| && Contents() == vals[..k] + more[a..c] + vals[k..]
    {
    }

    /** Overwrites values node by node until one of the two lists ends, at position `k`. */
    method CopyPrefix(right: List<T>) returns (dst: Node<T>, src: Node<T>, ghost k: nat)
      requires Valid() && right.Valid() && right != this && Apart(right)
      modifies nodes`val
      ensures Valid() && right.Valid() && k <= |nodes| && k <= |right.nodes|
      ensures dst == Iter(k) && src == right.Iter(k) && (k == |nodes| || k == |right.nodes|)
      ensures right.Contents() == old(right.Contents())
      ensures forall i | 0 <= i < |nodes| :: nodes[i].val == if i < k then right.Contents()[i] else old(nodes[i].val)
    {
      hide IsRing, Vals;
      ghost var more := right.Contents();
      dst := Begin();
      src := right.Begin();
      k := 0;
      PositionsDiffer(middle, nodes);
      PositionsDiffer(right.middle, right.nodes);
      while src != right.middle && dst != middle
        invariant k <= |nodes| && k <= |right.nodes|
        invariant dst == Iter(k) && src == right.Iter(k)
        invariant forall i | 0 <= i < |right.nodes| :: right.nodes[i].val == more[i]
        invariant forall i | 0 <= i < |nodes| :: nodes[i].val == if i < k then more[i] else old(nodes[i].val)
        decreases |nodes| - k
      {
        NextAt(middle, nodes, k);
        NextAt(right.middle, right.nodes, k);
        forall i | 0 <= i < |right.nodes| ensures right.nodes[i] != dst {
          assert dst in nodes && right.nodes[i] in right.nodes;
        }
        forall i | 0 <= i < |nodes| && i != k ensures nodes[i] != dst {
          assert nodes[i] == Iter(i);
        }
        dst.val := src.val;
        dst, src := dst.next, src.next;
        k := k + 1;
      }
      assert Iter(|nodes|) == middle && right.Iter(|right.nodes|) == right.middle;
      assert right.Contents() == more;
    }

    /** Assignment reuses this list's nodes as far as both lists reach, then erases or appends. */
    method Assign(right: List<T>)
      requires Valid() && right.Valid() && (right != this ==> Apart(right))
      modifies this`nodes, middle`next, middle`prev, nodes`next, nodes`prev, nodes`val
      ensures Valid() && Contents() == right.Contents() && right.Contents() == old(right.Contents())
    {
      hide IsRing;
      if this == right {
        return;
      }
      var dst, src;
      ghost var k;
      dst, src, k := CopyPrefix(right);
      FinishAssign(right, dst, src, k);
    }

    method FinishAssign(right: List<T>, dst: Node<T>, src: Node<T>, ghost k: nat)
      requires Valid() && right.Valid() && right != this && Apart(right)
      requires k <= |nodes| && k <= |right.nodes| && (k == |nodes| || k == |right.nodes|)
      requires dst == Iter(k) && src == right.Iter(k)
      requires forall i | 0 <= i < k :: nodes[i].val == right.nodes[i].val
      modifies this`nodes, middle`next, middle`prev, nodes`next, nodes`prev
      ensures Valid() && Contents() == right.Contents() && right.Contents() == old(right.Contents())
    {
      hide IsRing, Vals;
      ghost var vals, more := Contents(), right.Contents();
      SentinelApart(right);
      SameLength(this);
      SameLength(right);
      assert right.Iter(|right.nodes|) == right.middle;
      assert vals[..k] == more[..k];
      if src == right.middle {
        assert k == |right.nodes| && more[..k] == more && vals[|nodes|..] == [];
        var end := EraseRange(k, dst, |nodes|, middle);
      } else {
        assert k == |nodes| && vals[..k] == vals && vals[k..] == [] && more[..k] + more[k..] == more;
        InsertRange(|nodes|, middle, right, k, src, |right.nodes|, right.middle);
      }
    }

    static lemma SentinelApart(l: List<T>)
      requires l.Valid()
      ensures l.middle !in l.nodes
    {
    }

    static lemma SameLength(l: List<T>)
      ensures |l.Contents()| == |l.nodes|
    {
    }
  }

  lemma AroundAt<T>(middle: Node<T>, ring: seq<Node<T>>, k: nat)
    requires k <= |ring|
    ensures |Around(middle, ring)| == |ring| + 2 && Around(middle, ring)[k + 1] == NodeAt(middle, ring, k)
  {
  }

  lemma ValsSplice<T>(ns: seq<Node<T>>, k: nat, n: Node<T>)
    requires k <= |ns|
    ensures Vals(ns[..k] + [n] + ns[k..]) == Vals(ns)[..k] + [n.val] + Vals(ns)[k..]
  {
    ValsConcat(ns[..k] + [n], ns[k..]);
    ValsConcat(ns[..k], [n]);
    ValsConcat(ns[..k], ns[k..]);
    assert ns[..k] + ns[k..] == ns && Vals([n]) == [n.val];
    hide Vals;
    SplitAt(Vals(ns[..k]), Vals(ns[k..]));
  }

  lemma {:induction false} ValsConcat<T>(a: seq<Node<T>>, b: seq<Node<T>>)
    ensures Vals(a + b) == Vals(a) + Vals(b)
  {
    if a == [] {
      assert a + b == b;
    } else {
      assert (a + b)[1..] == a[1..] + b;
      ValsConcat(a[1..], b);
    }
  }

  lemma SplitAt<U>(a: seq<U>, b: seq<U>)
    ensures (a + b)[..|a|] == a && (a + b)[|a|..] == b
  {
  }

  // ---- Ranges cut out and spliced in -----------------------------------------------------

  ghost predicate Cut<U>(base: seq<U>, i: nat, k: nat, s: seq<U>)
    requires i <= k <= |base|
  {
    s == base[..i] + base[k..]
  }

  lemma CutNone<U>(base: seq<U>, i: nat)
    requires i <= |base|
    ensures Cut(base, i, i, base)
  {
  }

  lemma CutStep<U>(base: seq<U>, i: nat, k: nat, s: seq<U>)
    requires i <= k < |base| && Cut(base, i, k, s)
    ensures i < |s| && Cut(base, i, k + 1, s[..i] + s[i + 1..])
  {
  }

  lemma CutAt<T>(middle: Node<T>, base: seq<Node<T>>, i: nat, k: nat, s: seq<Node<T>>)
    requires i <= k <= |base| && Cut(base, i, k, s)
    ensures i <= |s| && (k < |base| ==> i < |s| && s[i] == base[k])
    ensures NodeAt(middle, s, i) == NodeAt(middle, base, k)
    ensures k < |base| ==> NodeAt(middle, base, k) == base[k]
    ensures forall n | 0 <= n < |s| :: s[n] in base
  {
  }

  /** Where a range was taken out, the node behind it has moved up. */
  lemma MovedUp<T>(middle: Node<T>, ring: seq<Node<T>>, i: nat, j: nat)
    requires i <= j <= |ring|
    ensures NodeAt(middle, ring[..i] + ring[j..], i) == NodeAt(middle, ring, j)
  {
  }

  /** Only the position past the last is the sentinel. */
  lemma AtEnd<T>(middle: Node<T>, ring: seq<Node<T>>, k: nat)
    requires middle !in ring && k <= |ring|
    ensures k < |ring| ==> NodeAt(middle, ring, k) == ring[k] != middle
    ensures k == |ring| ==> NodeAt(middle, ring, k) == middle
  {
  }

  ghost predicate Spliced<U>(base: seq<U>, k: nat, mid: seq<U>, s: seq<U>)
    requires k <= |base|
  {
    s == base[..k] + mid + base[k..]
  }

  lemma SpliceNone<U>(base: seq<U>, k: nat)
    requires k <= |base|
    ensures Spliced(base, k, [], base)
  {
    assert base == base[..k] + [] + base[k..];
  }

  lemma SliceGrows<U>(s: seq<U>, a: nat, b: nat)
    requires a <= b < |s|
    ensures s[a..b] + [s[b]] == s[a..b + 1]
  {
  }

  lemma SpliceStep<U>(base: seq<U>, k: nat, mid: seq<U>, x: U, s: seq<U>)
    requires k <= |base| && Spliced(base, k, mid, s)
    ensures k + |mid| <= |s| && Spliced(base, k, mid + [x], s[..k + |mid|] + [x] + s[k + |mid|..])
  {
    assert s[..k + |mid|] == base[..k] + mid && s[k + |mid|..] == base[k..];
  }

  lemma SplicedAt<T>(middle: Node<T>, base: seq<Node<T>>, k: nat, mid: seq<Node<T>>, s: seq<Node<T>>)
    requires k <= |base| && Spliced(base, k, mid, s)
    ensures k + |mid| <= |s| && NodeAt(middle, s, k + |mid|) == NodeAt(middle, base, k)
    ensures forall n | 0 <= n < |s| :: s[n] in base || s[n] in mid
  {
  }
}
