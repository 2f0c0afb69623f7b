/**
 * Marks per uid range: netd keeps a list that it searches newest first, and an iptables
 * chain to which it appends and in which the last matching rule wins. The two must agree.
 */
module UidMarks {
  import opened Util
  import opened Ring
  import opened NetdList

  const PROTECT_MARK := 1

  datatype Entry = Entry(start: int, end: int, mark: int)

  predicate Covers(e: Entry, uid: int) { e.start <= uid <= e.end }

  // ---- The list --------------------------------------------------------------------------

  /** The newest entry that covers the uid. */
  function Newest(es: seq<Entry>, uid: int): Option<Entry> {
    if es == [] then None else if Covers(es[0], uid) then Some(es[0]) else Newest(es[1..], uid)
  }

  /** getMark: a uid without an entry is protected from VPN rules. */
  function MarkOf(es: seq<Entry>, uid: int): int {
    var e := Newest(es, uid);
    if e.Some? then e.value.mark else PROTECT_MARK
  }

  // ---- The chain -------------------------------------------------------------------------

  /** st_mangle_OUTPUT: two guards set up at start, then one MARK rule per range, oldest first. */
  datatype Rule = ReturnIfMarked | ReturnIfVpn | Mark(entry: Entry)

  /** The mark a packet leaves the chain with; a MARK rule does not end the walk. */
  function Walk(rules: seq<Rule>, uid: int, vpn: bool, mark: int): int
    decreases rules
  {
    if rules == [] then mark else
    match rules[0]
    case ReturnIfMarked => if mark != 0 then mark else Walk(rules[1..], uid, vpn, mark)
    case ReturnIfVpn => if vpn then mark else Walk(rules[1..], uid, vpn, mark)
    case Mark(e) => Walk(rules[1..], uid, vpn, if Covers(e, uid) then e.mark else mark)
  }

  /** The MARK rules for a list: the list backwards. */
  function MarkRules(es: seq<Entry>): (r: seq<Rule>)
    ensures |r| == |es|
  {
    if es == [] then [] else MarkRules(es[1..]) + [Mark(es[0])]
  }

  function ChainFor(es: seq<Entry>): seq<Rule> { [ReturnIfMarked, ReturnIfVpn] + MarkRules(es) }

  lemma {:induction false} WalkConcat(a: seq<Rule>, r: Rule, uid: int, vpn: bool, mark: int)
    requires forall x | x in a :: x.Mark?
    ensures Walk(a + [r], uid, vpn, mark) == Walk([r], uid, vpn, Walk(a, uid, vpn, mark))
    decreases a
  {
    if a == [] {
      assert a + [r] == [r];
    } else {
      assert (a + [r])[1..] == a[1..] + [r];
      WalkConcat(a[1..], r, uid, vpn, if Covers(a[0].entry, uid) then a[0].entry.mark else mark);
    }
  }

  lemma {:induction false} MarkRulesWalk(es: seq<Entry>, uid: int, vpn: bool, mark: int)
    ensures forall x | x in MarkRules(es) :: x.Mark?
    ensures Walk(MarkRules(es), uid, vpn, mark) == var e := Newest(es, uid); if e.Some? then e.value.mark else mark
  {
    if es != [] {
      MarkRulesWalk(es[1..], uid, vpn, mark);
      WalkConcat(MarkRules(es[1..]), Mark(es[0]), uid, vpn, mark);
    }
  }

  /**
   * When the chain mirrors the list, an unmarked packet of an ordinary uid gets the list's mark (none when
   * the list has none), and packets that are marked already or belong to the vpn daemon keep theirs.
   */
  lemma ChainAgreesWithList(es: seq<Entry>, uid: int, vpn: bool, mark: int)
    ensures Walk(ChainFor(es), uid, vpn, mark) ==
      if mark != 0 || vpn then mark else if Newest(es, uid).Some? then MarkOf(es, uid) else 0
  {
    var rules := ChainFor(es);
    assert rules[1..][1..] == MarkRules(es);
    MarkRulesWalk(es, uid, vpn, mark);
  }

  // ---- Adding and removing ranges --------------------------------------------------------

  /** addUidRule/removeUidRule for one (start, end, mark), with iptables commands that succeed. */
  datatype Op = AddRange(e: Entry) | RemoveRange(e: Entry)

  datatype State = State(entries: seq<Entry>, chain: seq<Rule>)

  /** The list prepends and removes its newest copy; the chain appends and deletes its oldest copy. */
  function Step(s: State, op: Op): State {
    match op
    case AddRange(e) => if e.start > e.end then s else State([e] + s.entries, s.chain + [Mark(e)])
    case RemoveRange(e) =>
      if e !in s.entries then s else State(RemoveFirst(s.entries, e), RemoveFirst(s.chain, Mark(e)))
  }

  function Run(s: State, ops: seq<Op>): State
    decreases ops
  {
    if ops == [] then s else Run(Step(s, ops[0]), ops[1..])
  }

  /** A range that was just added decides for all its uids, both ends included, and for no other. */
  lemma AddedIsNewest(s: State, e: Entry, uid: int)
    ensures MarkOf(Step(s, AddRange(e)).entries, uid) == if e.start <= uid && uid <= e.end then e.mark else MarkOf(s.entries, uid)
    ensures MarkOf([], uid) == 1
  {
    assert ([e] + s.entries)[1..] == s.entries;
  }

  /** Removing a range that is not repeated undoes adding it, in the list and in the chain. */
  lemma RemoveUndoesAdd(s: State, e: Entry)
    requires e !in s.entries && Mark(e) !in s.chain && e.start <= e.end
    ensures Step(Step(s, AddRange(e)), RemoveRange(e)) == s
  {
    RemoveFirstSkips(s.chain, [Mark(e)], Mark(e));
  }

  predicate Mirrored(s: State) { s.chain == ChainFor(s.entries) }

  /** No range is added while an identical one is live. */
  predicate NoRepeats(s: State, ops: seq<Op>)
    decreases ops
  {
    ops == [] || ((ops[0].AddRange? ==> ops[0].e !in s.entries) && NoRepeats(Step(s, ops[0]), ops[1..]))
  }

  /** The list without its oldest copy of `e`. */
  function RemoveLast(es: seq<Entry>, e: Entry): seq<Entry> {
    if es == [] then []
    else if e in es[1..] then [es[0]] + RemoveLast(es[1..], e)
    else if es[0] == e then es[1..] else es
  }

  lemma {:induction false} MarkRulesIn(es: seq<Entry>, e: Entry)
    ensures Mark(e) in MarkRules(es) <==> e in es
  {
    if es != [] {
      MarkRulesIn(es[1..], e);
    }
  }

  lemma {:induction false} ChainDeletesOldest(es: seq<Entry>, e: Entry)
    ensures RemoveFirst(MarkRules(es), Mark(e)) == MarkRules(RemoveLast(es, e))
  {
    if es != [] {
      var rest := MarkRules(es[1..]);
      MarkRulesIn(es[1..], e);
      if e in es[1..] {
        RemoveFirstInside(rest, [Mark(es[0])], Mark(e));
        ChainDeletesOldest(es[1..], e);
        assert ([es[0]] + RemoveLast(es[1..], e))[1..] == RemoveLast(es[1..], e);
      } else {
        RemoveFirstSkips(rest, [Mark(es[0])], Mark(e));
      }
    }
  }

  lemma ChainDelete(es: seq<Entry>, e: Entry)
    ensures RemoveFirst(ChainFor(es), Mark(e)) == ChainFor(RemoveLast(es, e))
  {
    RemoveFirstSkips([ReturnIfMarked, ReturnIfVpn], MarkRules(es), Mark(e));
    ChainDeletesOldest(es, e);
  }

  lemma {:induction false} MarkRulesInjective(a: seq<Entry>, b: seq<Entry>)
    ensures MarkRules(a) == MarkRules(b) <==> a == b
  {
    if a != [] && b != [] && |a| == |b| {
      var ra, rb := MarkRules(a), MarkRules(b);
      if ra == rb {
        assert ra[|a| - 1] == Mark(a[0]) && rb[|b| - 1] == Mark(b[0]);
        assert ra[..|a| - 1] == MarkRules(a[1..]) && rb[..|b| - 1] == MarkRules(b[1..]);
        MarkRulesInjective(a[1..], b[1..]);
        assert a == [a[0]] + a[1..] && b == [b[0]] + b[1..];
      }
    }
  }

  /** Every entry between the newest and the oldest live copy of `e` is `e` itself. */
  ghost predicate Together(es: seq<Entry>, e: Entry) {
    forall i, j, k | 0 <= i <= j <= k < |es| && es[i] == e && es[k] == e :: es[j] == e
  }

  lemma {:induction false} RemoveEitherEnd(es: seq<Entry>, e: Entry)
    ensures RemoveFirst(es, e) == RemoveLast(es, e) <==> Together(es, e)
  {
    if es != [] {
      var rest := es[1..];
      RemoveEitherEnd(rest, e);
      if es[0] != e {
        DifferentHead(es, e);
      } else if e in rest {
        SameHead(es, e);
      } else {
        assert Together(es, e);
      }
    }
  }

  lemma DifferentHead(es: seq<Entry>, e: Entry)
    requires es != [] && es[0] != e
    ensures Together(es, e) <==> Together(es[1..], e)
    ensures RemoveFirst(es, e) == RemoveLast(es, e) <==> RemoveFirst(es[1..], e) == RemoveLast(es[1..], e)
  {
    hide Together;
    TogetherTail(es, e);
    var rest := es[1..];
    if e !in rest {
      RemoveLastAbsent(rest, e);
      RemoveFirstAbsent(rest, e);
      assert es == [es[0]] + rest;
    }
    assert ([es[0]] + RemoveFirst(rest, e))[1..] == RemoveFirst(rest, e);
    assert ([es[0]] + RemoveLast(rest, e))[1..] == RemoveLast(rest, e);
  }

  lemma TogetherTail(es: seq<Entry>, e: Entry)
    requires es != [] && (es[0] != e || (|es| > 1 && es[1] == e))
    ensures Together(es, e) <==> Together(es[1..], e)
  {
    var rest := es[1..];
    if Together(rest, e) {
      forall i, j, k | 0 <= i <= j <= k < |es| && es[i] == e && es[k] == e ensures es[j] == e {
        if j > 0 {
          var i' := if i == 0 then 0 else i - 1;
          assert rest[i'] == e && rest[k - 1] == e && rest[j - 1] == es[j];
        }
      }
    }
    if Together(es, e) {
      forall i, j, k | 0 <= i <= j <= k < |rest| && rest[i] == e && rest[k] == e ensures rest[j] == e {
        assert es[i + 1] == e && es[k + 1] == e && es[j + 1] == rest[j];
      }
    }
  }

  lemma RemoveLastAbsent(es: seq<Entry>, e: Entry)
    requires e !in es
    ensures RemoveLast(es, e) == es
  {
  }

  lemma SameHead(es: seq<Entry>, e: Entry)
    requires es != [] && es[0] == e && e in es[1..]
    requires RemoveFirst(es[1..], e) == RemoveLast(es[1..], e) <==> Together(es[1..], e)
    ensures RemoveFirst(es, e) == RemoveLast(es, e) <==> Together(es, e)
  {
    hide Together, RemoveFirst, RemoveLast;
    var rest := es[1..];
    var tail := RemoveLast(rest, e);
    HeadRemoved(es, e);
    if rest[0] == e {
      TogetherTail(es, e);
      FirstOf(rest, e);
      assert rest == [e] + rest[1..] && ([e] + tail)[1..] == tail;
    } else {
      ApartCopies(es, e);
      assert rest[0] != ([e] + tail)[0];
    }
  }

  lemma HeadRemoved(es: seq<Entry>, e: Entry)
    requires es != [] && es[0] == e && e in es[1..]
    ensures RemoveFirst(es, e) == es[1..] && RemoveLast(es, e) == [e] + RemoveLast(es[1..], e)
  {
  }

  lemma FirstOf(es: seq<Entry>, e: Entry)
    requires es != [] && es[0] == e
    ensures RemoveFirst(es, e) == es[1..]
  {
  }

  lemma ApartCopies(es: seq<Entry>, e: Entry)
    requires |es| > 1 && es[0] == e && es[1] != e && e in es[1..]
    ensures !Together(es, e)
  {
    var k :| 0 <= k < |es[1..]| && es[1..][k] == e;
    assert es[0] == e && es[k + 1] == e && es[1] != e;
  }

  /** A removal keeps chain and list mirror images exactly when the live copies of the range sit together. */
  lemma RemoveKeepsMirror(s: State, e: Entry)
    requires Mirrored(s) && e in s.entries
    ensures Mirrored(Step(s, RemoveRange(e))) <==> Together(s.entries, e)
  {
    ChainDelete(s.entries, e);
    RemoveEitherEnd(s.entries, e);
    var a, b := RemoveFirst(s.entries, e), RemoveLast(s.entries, e);
    MarkRulesInjective(a, b);
    assert ChainFor(a) == ChainFor(b) <==> a == b by {
      assert ChainFor(a)[2..] == MarkRules(a) && ChainFor(b)[2..] == MarkRules(b);
    }
  }

  // ---- What a removal does to the marks ---------------------------------------------------

  lemma {:induction false} NewestOfTwo(a: seq<Entry>, b: seq<Entry>, uid: int)
    ensures Newest(a + b, uid) == if Newest(a, uid).Some? then Newest(a, uid) else Newest(b, uid)
  {
    if a == [] {
      assert a + b == b;
    } else {
      assert (a + b)[0] == a[0] && (a + b)[1..] == a[1..] + b;
      NewestOfTwo(a[1..], b, uid);
    }
  }

  lemma {:induction false} RemoveLastInside(a: seq<Entry>, b: seq<Entry>, e: Entry)
    requires e in b
    ensures RemoveLast(a + b, e) == a + RemoveLast(b, e)
  {
    if a == [] {
      assert a + b == b;
    } else {
      assert (a + b)[0] == a[0] && (a + b)[1..] == a[1..] + b;
      RemoveLastInside(a[1..], b, e);
      assert [a[0]] + (a[1..] + RemoveLast(b, e)) == a + RemoveLast(b, e);
    }
  }

  /** Where the newest copy of an entry stands. */
  function Place(es: seq<Entry>, e: Entry): (i: nat)
    requires e in es
    ensures i < |es| && es[i] == e && e !in es[..i]
  {
    if es[0] == e then 0
    else
      var i := Place(es[1..], e);
      assert es[..i + 1] == [es[0]] + es[1..][..i];
      i + 1
  }

  /** The list and the chain after a removal, around the newest copy. */
  lemma AroundCopy(es: seq<Entry>, e: Entry)
    requires e in es
    ensures var a, b := es[..Place(es, e)], es[Place(es, e) + 1..];
      && RemoveFirst(es, e) == a + b
      && RemoveLast(es, e) == if e in b then a + ([e] + RemoveLast(b, e)) else a + b
  {
    var i := Place(es, e);
    var a, b := es[..i], es[i + 1..];
    EraseIsRemove(es, i);
    assert es == a + ([e] + b);
    RemoveLastInside(a, [e] + b, e);
    assert ([e] + b)[1..] == b;
  }

  /** What lookup says of a uid, as a mark on a packet. */
  function Looked(es: seq<Entry>, uid: int): int { if Newest(es, uid).Some? then MarkOf(es, uid) else 0 }

  /**
   * After the removal of a range from list and chain that mirror each other, lookup and walk agree on a uid exactly when
   * the range does not cover it, or a newer entry does, or no copy is left, or the next entry that covers it has the same mark.
   */
  lemma RemoveAgreesIff(s: State, e: Entry, uid: int)
    requires Mirrored(s) && e in s.entries
    ensures var s' := Step(s, RemoveRange(e));
      var a, b := s.entries[..Place(s.entries, e)], s.entries[Place(s.entries, e) + 1..];
      Walk(s'.chain, uid, false, 0) == Looked(s'.entries, uid) <==>
        !Covers(e, uid) || Newest(a, uid).Some? || e !in b || MarkOf(b, uid) == e.mark
  {
    hide Place, RemoveFirst, RemoveLast, Walk;
    var es, i := s.entries, Place(s.entries, e);
    var a, b := es[..i], es[i + 1..];
    ChainDelete(es, e);
    AroundCopy(es, e);
    ChainAgreesWithList(RemoveLast(es, e), uid, false, 0);
    NewestOfTwo(a, b, uid);
    if e in b {
      var left := RemoveLast(b, e);
      NewestOfTwo(a, [e] + left, uid);
      NewestOfTwo([e], left, uid);
      NewestOfTwo([e], b, uid);
      OtherwiseSame(b, e, uid);
      if Covers(e, uid) {
        CoveredSome(b, e, uid);
      }
    }
  }

  /** Removing a copy does not matter to a uid outside its range. */
  lemma {:induction false} OtherwiseSame(es: seq<Entry>, e: Entry, uid: int)
    ensures !Covers(e, uid) ==> Newest(RemoveLast(es, e), uid) == Newest(es, uid)
  {
    if es != [] && e in es[1..] {
      OtherwiseSame(es[1..], e, uid);
      assert ([es[0]] + RemoveLast(es[1..], e))[1..] == RemoveLast(es[1..], e);
    }
  }

  lemma {:induction false} CoveredSome(es: seq<Entry>, e: Entry, uid: int)
    requires e in es && Covers(e, uid)
    ensures Newest(es, uid).Some?
  {
    if !Covers(es[0], uid) {
      CoveredSome(es[1..], e, uid);
    }
  }

  lemma {:induction false} SingleIsTogether(es: seq<Entry>, e: Entry)
    requires NoDups(es)
    ensures Together(es, e)
  {
    if es != [] {
      SingleIsTogether(es[1..], e);
      if es[0] != e {
        DifferentHead(es, e);
      } else {
        assert forall k | 0 < k < |es| :: es[k] == es[1..][k - 1];
      }
    }
  }

  /** Over every history without a repeated live range the chain mirrors the list. */
  lemma {:induction false} RunKeepsMirror(s: State, ops: seq<Op>)
    requires Mirrored(s) && NoDups(s.entries) && NoRepeats(s, ops)
    ensures Mirrored(Run(s, ops)) && NoDups(Run(s, ops).entries)
    decreases ops
  {
    if ops != [] {
      var op := ops[0];
      match op {
        case AddRange(e) =>
          assert ([e] + s.entries)[1..] == s.entries;
          NoDupsCons(e, s.entries);
        case RemoveRange(e) =>
          if e in s.entries {
            SingleIsTogether(s.entries, e);
            RemoveKeepsMirror(s, e);
            RemoveFirstNoDups(s.entries, e);
          }
      }
      RunKeepsMirror(Step(s, op), ops[1..]);
    }
  }

  /** ... so at every point lookup and packet walk give the same mark to every covered uid. */
  lemma LookupEqualsWalk(ops: seq<Op>, uid: int)
    requires NoRepeats(State([], ChainFor([])), ops)
    ensures var s := Run(State([], ChainFor([])), ops);
      Walk(s.chain, uid, false, 0) == if Newest(s.entries, uid).Some? then MarkOf(s.entries, uid) else 0
  {
    RunKeepsMirror(State([], ChainFor([])), ops);
    ChainAgreesWithList(Run(State([], ChainFor([])), ops).entries, uid, false, 0);
  }

  /** With a range added twice around another one, removing it leaves the two disagreeing. */
  lemma RepeatedRangeDisagrees(uid: int)
    ensures var a, b := Entry(uid, uid, 60), Entry(uid, uid, 61);
      var s := Run(State([], ChainFor([])), [AddRange(a), AddRange(b), AddRange(a), RemoveRange(a)]);
      MarkOf(s.entries, uid) == 61 && Walk(s.chain, uid, false, 0) == 60
  {
    var a, b := Entry(uid, uid, 60), Entry(uid, uid, 61);
    var s0 := State([], ChainFor([]));
    var s3 := State([a, b, a], ChainFor([]) + [Mark(a)] + [Mark(b)] + [Mark(a)]);
    RunFour(s0, AddRange(a), AddRange(b), AddRange(a), RemoveRange(a));
    assert Step(Step(Step(s0, AddRange(a)), AddRange(b)), AddRange(a)) == s3;
    RemoveRepeated(a, b, s3);
    ChainAgreesWithList([a, b], uid, false, 0);
  }

  lemma RemoveRepeated(a: Entry, b: Entry, s: State)
    requires a != b && s == State([a, b, a], ChainFor([]) + [Mark(a)] + [Mark(b)] + [Mark(a)])
    ensures Step(s, RemoveRange(a)) == State([b, a], ChainFor([a, b]))
  {
    var tail := [Mark(a), Mark(b), Mark(a)];
    assert s.chain == ChainFor([]) + tail;
    RemoveFirstSkips(ChainFor([]), tail, Mark(a));
    assert [a, b][1..] == [b] && MarkRules([b]) == [Mark(b)];
  }

  lemma RunFour(s: State, o1: Op, o2: Op, o3: Op, o4: Op)
    ensures Run(s, [o1, o2, o3, o4]) == Step(Step(Step(Step(s, o1), o2), o3), o4)
  {
    var s2 := Step(Step(s, o1), o2);
    var s4 := Step(Step(s2, o3), o4);
    assert [o1, o2, o3, o4][1..] == [o2, o3, o4] && [o2, o3, o4][1..] == [o3, o4] && [o3, o4][1..] == [o4];
    assert Run(s2, [o3, o4]) == Run(s, [o1, o2, o3, o4]);
    assert [o4][1..] == [] && Run(Step(s2, o3), [o4]) == Run(s4, []);
  }

  // ---- The daemon's side -----------------------------------------------------------------

  class UidMarkMap {
    const mMap: List<Entry>
    /** The kernel's st_mangle_OUTPUT chain. */
    var chain: seq<Rule>

    ghost predicate Valid()
      reads this, mMap, mMap.middle`next, mMap.middle`prev, mMap.nodes`next, mMap.nodes`prev
    {
      mMap.Valid()
    }

    ghost function View(): State
      reads this, mMap, mMap.nodes`val
    {
      State(mMap.Contents(), chain)
    }

    /** An empty list, and the two guards of setupIptablesHooks. */
    constructor ()
      ensures Valid() && View() == State([], ChainFor([])) && Mirrored(View())
    {
      mMap := new List<Entry>();
      chain := [ReturnIfMarked, ReturnIfVpn];
    }

    method GetMark(uid: int) returns (mark: int)
      requires Valid()
      ensures mark == MarkOf(mMap.Contents(), uid)
    {
      var it := mMap.Begin();
      ghost var k := 0;
      ghost var es := mMap.Contents();
      while it != mMap.middle
        invariant Valid() && k <= |es| && it == mMap.Iter(k) && es == mMap.Contents()
        invariant Newest(es, uid) == Newest(es[k..], uid)
        decreases |es| - k
      {
        NextAt(mMap.middle, mMap.nodes, k);
        assert es[k..][0] == it.val && es[k..][1..] == es[k + 1..];
        if it.val.start <= uid && it.val.end >= uid {
          return it.val.mark;
        }
        it := it.next;
        k := k + 1;
      }
      mark := PROTECT_MARK;
    }

    method AnyRulesForMark(mark: int) returns (b: bool)
      requires Valid()
      ensures b <==> exists e :: e in mMap.Contents() && e.mark == mark
    {
      var it := mMap.Begin();
      ghost var k := 0;
      while it != mMap.middle
        invariant Valid() && k <= |mMap.nodes| && it == mMap.Iter(k)
        invariant forall i | 0 <= i < k :: mMap.Contents()[i].mark != mark
        decreases |mMap.nodes| - k
      {
        NextAt(mMap.middle, mMap.nodes, k);
        if it.val.mark == mark {
          assert mMap.Contents()[k] in mMap.Contents();
          return true;
        }
        it := it.next;
        k := k + 1;
      }
      b := false;
    }

    /** setUidRule with `add`: the list first, then "-A". */
    method AddUidRule(e: Entry) returns (rc: int)
      requires Valid()
      modifies this`chain, mMap`nodes, mMap.middle`next, mMap.middle`prev, mMap.nodes`next, mMap.nodes`prev
      ensures Valid() && View() == Step(old(View()), AddRange(e))
      ensures rc == if e.start <= e.end then 0 else -1
    {
      if e.start > e.end {
        return -1;
      }
      mMap.PushFront(e);
      chain := chain + [Mark(e)];
      rc := 0;
    }

    /** setUidRule with `!add`: the newest copy leaves the list, "-D" takes the oldest out of the chain. */
    method RemoveUidRule(e: Entry) returns (rc: int)
      requires Valid()
      modifies this`chain, mMap`nodes, mMap.middle`next, mMap.middle`prev, mMap.nodes`next, mMap.nodes`prev
      ensures Valid() && View() == Step(old(View()), RemoveRange(e))
      ensures rc == if e in old(mMap.Contents()) then 0 else -1
    {
      hide IsRing, Vals, RemoveFirst;
      var it, k := FindEntry(e);
      ghost var es := mMap.Contents();
      if it == mMap.middle {
        assert es[..k] == es;
        return -1;
      }
      EraseIsRemove(es, k);
      var next := mMap.Erase(k, it);
      chain := RemoveFirst(chain, Mark(e));
      rc := 0;
    }

    /** The first node that holds the entry, or the sentinel. */
    method FindEntry(e: Entry) returns (it: Node<Entry>, ghost k: nat)
      requires Valid()
      ensures k <= |mMap.nodes| == |mMap.Contents()| && it == mMap.Iter(k) && e !in mMap.Contents()[..k]
      ensures it == mMap.middle <==> k == |mMap.nodes|
      ensures k < |mMap.nodes| ==> it == mMap.nodes[k] && mMap.Contents()[k] == e
    {
      hide IsRing, Vals;
      it := mMap.Begin();
      k := 0;
      List.SentinelApart(mMap);
      while it != mMap.middle
        invariant k <= |mMap.nodes| && it == mMap.Iter(k) && e !in mMap.Contents()[..k]
        decreases |mMap.nodes| - k
      {
        NextAt(mMap.middle, mMap.nodes, k);
        if it.val == e { return; }
        it := it.next;
        k := k + 1;
      }
    }
  }
}
