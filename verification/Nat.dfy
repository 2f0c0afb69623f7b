/**
 * netd's NatController: tethering of an internal to an external interface is routes in the external interface's
 * table, rules in the natctrl_FORWARD chain, one MASQUERADE rule and a pair of counting rules, put up by a
 * sequence of commands any of which may fail, and unwound on failure.
 */
module Nat {
  import opened Util
  import opened SecondaryTables
  import TetherStats

  /** Outcomes of the commands that add one address. */
  datatype AddressCmds = AddressCmds(rule: bool, route: bool)

  /** Outcomes of the commands of one enable; the others of the run are taken to succeed. */
  datatype Cmds = Cmds(masquerade: bool, established: bool, invalid: bool, jump: bool, countForth: bool, countBack: bool)

  type Pair = TetherStats.Pair

  /** A rule of natctrl_FORWARD. The first and third go to the counter chain, which returns from both chains. */
  datatype Fwd = Established(from: string, to: string) | Invalid(from: string, to: string) | Jump(from: string, to: string) | Drop

  datatype World = World(
    slots: seq<Slot>,
    forward: seq<Fwd>,
    masquerade: seq<string>,
    counters: seq<TetherStats.Counter>,
    natCount: int)

  // ---- Routes ----------------------------------------------------------------------------

  function AddAll(s: Slot, dev: string, addrs: seq<string>, oks: seq<AddressCmds>): (Slot, bool)
    requires |oks| == |addrs|
    decreases addrs
  {
    if addrs == [] then (s, true) else
    var (s1, a) := FromStep(s, true, addrs[0], oks[0].rule);
    var (s2, b) := LocalStep(s1, true, Local(dev, addrs[0]), oks[0].route);
    var (s3, c) := AddAll(s2, dev, addrs[1..], oks[1..]);
    (s3, a && b && c)
  }

  function DelOne(s: Slot, dev: string, addr: string): Slot {
    FromStep(LocalStep(s, false, Local(dev, addr), false).0, false, addr, false).0
  }

  function DelAll(s: Slot, dev: string, addrs: seq<string>): Slot
    decreases addrs
  {
    if addrs == [] then s else DelAll(DelOne(s, dev, addrs[0]), dev, addrs[1..])
  }

  function RoutesAdd(slots: seq<Slot>, p: Pair, addrs: seq<string>, oks: seq<AddressCmds>): (r: (seq<Slot>, bool))
    requires |oks| == |addrs|
    ensures |r.0| == |slots|
  {
    var k := Find(slots, p.extIface);
    if k < 0 then (slots, true) else
    var (s, ok) := AddAll(slots[k], p.intIface, addrs, oks);
    (slots[k := s], ok)
  }

  function RoutesDel(slots: seq<Slot>, p: Pair, addrs: seq<string>): (r: seq<Slot>)
    ensures |r| == |slots|
  {
    var k := Find(slots, p.extIface);
    if k < 0 then slots else slots[k := DelAll(slots[k], p.intIface, addrs)]
  }

  // ---- Unwinding the routes --------------------------------------------------------------

  ghost function LocalsOf(dev: string, addrs: seq<string>): set<Local> { set a | a in addrs :: Local(dev, a) }

  /** Addresses whose rule was added. */
  ghost function Added(addrs: seq<string>, oks: seq<AddressCmds>): multiset<string>
    requires |oks| == |addrs|
  {
    if addrs == [] then multiset{} else
    (if oks[0].rule then multiset{addrs[0]} else multiset{}) + Added(addrs[1..], oks[1..])
  }

  ghost function Failed(addrs: seq<string>, oks: seq<AddressCmds>): multiset<string>
    requires |oks| == |addrs|
  {
    if addrs == [] then multiset{} else
    (if oks[0].rule then multiset{} else multiset{addrs[0]}) + Failed(addrs[1..], oks[1..])
  }

  lemma {:induction false} AddedOrFailed(addrs: seq<string>, oks: seq<AddressCmds>)
    requires |oks| == |addrs|
    ensures Added(addrs, oks) + Failed(addrs, oks) == multiset(addrs)
  {
    if addrs != [] {
      AddedOrFailed(addrs[1..], oks[1..]);
      assert addrs == [addrs[0]] + addrs[1..];
    }
  }

  lemma LocalsOfCons(dev: string, addrs: seq<string>)
    requires addrs != []
    ensures LocalsOf(dev, addrs) == {Local(dev, addrs[0])} + LocalsOf(dev, addrs[1..])
  {
    assert forall a :: a in addrs <==> a == addrs[0] || a in addrs[1..];
  }

  /** The local routes whose command succeeded. */
  ghost function Granted(dev: string, addrs: seq<string>, oks: seq<AddressCmds>): set<Local>
    requires |oks| == |addrs|
  {
    set i | 0 <= i < |addrs| && oks[i].route :: Local(dev, addrs[i])
  }

  lemma GrantedCons(dev: string, addrs: seq<string>, oks: seq<AddressCmds>)
    requires |oks| == |addrs| && addrs != []
    ensures Granted(dev, addrs, oks) ==
      (if oks[0].route then {Local(dev, addrs[0])} else {}) + Granted(dev, addrs[1..], oks[1..])
  {
    var all, rest := Granted(dev, addrs, oks), Granted(dev, addrs[1..], oks[1..]);
    forall l | l in rest ensures l in all {
      var i :| 0 <= i < |addrs[1..]| && oks[1..][i].route && l == Local(dev, addrs[1..][i]);
      assert oks[i + 1].route && l == Local(dev, addrs[i + 1]);
    }
    forall l | l in all ensures l in rest || (oks[0].route && l == Local(dev, addrs[0])) {
      var i :| 0 <= i < |addrs| && oks[i].route && l == Local(dev, addrs[i]);
      if i > 0 {
        assert oks[1..][i - 1].route && l == Local(dev, addrs[1..][i - 1]);
      }
    }
  }

  /** Every command succeeds: none fails by itself, and no local route is there already or asked for twice. */
  ghost predicate Clear(s: Slot, dev: string, addrs: seq<string>, oks: seq<AddressCmds>)
    requires |oks| == |addrs|
  {
    && (forall i | 0 <= i < |oks| :: oks[i].rule && oks[i].route)
    && NoDups(addrs) && forall a | a in addrs :: Local(dev, a) !in s.locals
  }

  lemma {:induction false} AddAllSucceedsIff(s: Slot, dev: string, addrs: seq<string>, oks: seq<AddressCmds>)
    requires |oks| == |addrs| && s.name != ""
    ensures AddAll(s, dev, addrs, oks).1 <==> Clear(s, dev, addrs, oks)
    decreases addrs
  {
    if addrs != [] {
      var s1 := FromStep(s, true, addrs[0], oks[0].rule).0;
      var s2 := LocalStep(s1, true, Local(dev, addrs[0]), oks[0].route).0;
      AddAllSucceedsIff(s2, dev, addrs[1..], oks[1..]);
      assert addrs == [addrs[0]] + addrs[1..] && oks == [oks[0]] + oks[1..];
      NoDupsCons(addrs[0], addrs[1..]);
      assert forall a :: a in addrs <==> a == addrs[0] || a in addrs[1..];
      if Clear(s, dev, addrs, oks) {
        assert s2.locals == s.locals + {Local(dev, addrs[0])};
        assert Clear(s2, dev, addrs[1..], oks[1..]);
      }
      if AddAll(s, dev, addrs, oks).1 {
        assert oks[0].rule && oks[0].route && s2.locals == s.locals + {Local(dev, addrs[0])};
        assert forall i | 0 < i < |oks| :: oks[i] == oks[1..][i - 1];
      }
    }
  }

  /** What was granted when every route command succeeded. */
  lemma AllGranted(dev: string, addrs: seq<string>, oks: seq<AddressCmds>)
    requires |oks| == |addrs| && forall i | 0 <= i < |oks| :: oks[i].rule && oks[i].route
    ensures Granted(dev, addrs, oks) == LocalsOf(dev, addrs) && Added(addrs, oks) == multiset(addrs)
  {
    forall l | l in LocalsOf(dev, addrs) ensures l in Granted(dev, addrs, oks) {
      var i :| 0 <= i < |addrs| && l == Local(dev, addrs[i]);
      assert oks[i].route;
    }
    AllAdded(addrs, oks);
  }

  lemma {:induction false} AllAdded(addrs: seq<string>, oks: seq<AddressCmds>)
    requires |oks| == |addrs| && forall i | 0 <= i < |oks| :: oks[i].rule
    ensures Added(addrs, oks) == multiset(addrs)
  {
    if addrs != [] {
      AllAdded(addrs[1..], oks[1..]);
      assert addrs == [addrs[0]] + addrs[1..];
    }
  }

  lemma GrantedWithin(dev: string, addrs: seq<string>, oks: seq<AddressCmds>)
    requires |oks| == |addrs|
    ensures Granted(dev, addrs, oks) <= LocalsOf(dev, addrs)
  {
  }

  lemma {:induction false} AddAllEffect(s: Slot, dev: string, addrs: seq<string>, oks: seq<AddressCmds>)
    requires |oks| == |addrs| && s.name != ""
    ensures var r := AddAll(s, dev, addrs, oks).0;
      && r.name == s.name && r.routes == s.routes
      && r.rules == s.rules + Added(addrs, oks)
      && r.locals == s.locals + Granted(dev, addrs, oks)
      && r.count == s.count + |addrs| + |Added(addrs, oks)|
    decreases addrs
  {
    if addrs != [] {
      var s1 := FromStep(s, true, addrs[0], oks[0].rule).0;
      var s2 := LocalStep(s1, true, Local(dev, addrs[0]), oks[0].route).0;
      GrantedCons(dev, addrs, oks);
      AddAllEffect(s2, dev, addrs[1..], oks[1..]);
    }
  }

  lemma DelOneEffect(s: Slot, dev: string, a: string)
    requires s.name != "" && s.count >= 1 + |s.rules|
    ensures var r := DelOne(s, dev, a);
      && r.routes == s.routes && r.rules == s.rules - multiset{a} && r.locals == s.locals - {Local(dev, a)}
      && r.count == s.count - 1 - (|s.rules| - |r.rules|)
      && r.name == (if r.count > 0 then s.name else "")
  {
    OneLess(s.rules, a);
    LocalOneLess(s, Local(dev, a));
    hide LocalStep;
    var s1 := LocalStep(s, false, Local(dev, a), false).0;
    assert s1.name != "" || s1.rules == multiset{};
  }

  lemma OneLess(m: multiset<string>, a: string)
    ensures a in m ==> |m - multiset{a}| == |m| - 1
    ensures a !in m ==> m - multiset{a} == m
  {
  }

  lemma LocalOneLess(s: Slot, l: Local)
    requires s.name != ""
    ensures LocalStep(s, false, l, false).0 == Down(s).(locals := s.locals - {l})
  {
  }

  lemma NoneDeleted(s: Slot, dev: string)
    ensures DelAll(s, dev, []) == s && s.locals - LocalsOf(dev, []) == s.locals && s.rules - multiset([]) == s.rules
  {
  }

  lemma DelCons(s: Slot, dev: string, addrs: seq<string>)
    requires addrs != []
    ensures DelAll(s, dev, addrs) == DelAll(DelOne(s, dev, addrs[0]), dev, addrs[1..])
  {
  }

  lemma LocalsMinus(ls: set<Local>, dev: string, addrs: seq<string>)
    requires addrs != []
    ensures ls - LocalsOf(dev, addrs) == ls - {Local(dev, addrs[0])} - LocalsOf(dev, addrs[1..])
  {
    hide LocalsOf;
    LocalsOfCons(dev, addrs);
  }

  lemma MinusCons(m: multiset<string>, a: string, rest: seq<string>)
    ensures m - multiset([a] + rest) == (m - multiset{a}) - multiset(rest)
    ensures |m - multiset{a}| <= |m|
  {
    if a in m { assert |m - multiset{a}| == |m| - 1; } else { assert m - multiset{a} == m; }
  }

  lemma {:induction false} DelAllEffect(s: Slot, dev: string, addrs: seq<string>)
    requires s.name != "" || addrs == []
    requires s.count >= |addrs| + |s.rules|
    ensures var r := DelAll(s, dev, addrs);
      && r.routes == s.routes
      && r.rules == s.rules - multiset(addrs)
      && r.locals == s.locals - LocalsOf(dev, addrs)
      && r.count == s.count - |addrs| - (|s.rules| - |r.rules|)
      && r.name == (if addrs == [] || r.count > 0 then s.name else "")
    decreases addrs
  {
    hide DelOne, LocalsOf, DelAll;
    if addrs == [] {
      NoneDeleted(s, dev);
    } else {
      var a, rest := addrs[0], addrs[1..];
      DelCons(s, dev, addrs);
      DelOneEffect(s, dev, a);
      LocalsMinus(s.locals, dev, addrs);
      MinusCons(s.rules, a, rest);
      assert addrs == [a] + rest;
      DelAllEffect(DelOne(s, dev, a), dev, rest);
    }
  }

  lemma Cancel(m: multiset<string>, a: multiset<string>, f: multiset<string>)
    ensures m + a - (a + f) == m - f
    ensures m - f == m <==> f !! m
  {
    if m - f == m {
      forall x ensures !(x in f && x in m) {
        assert (m - f)[x] == m[x];
      }
    }
  }

  /**
   * Unwinding after any pattern of failures. The "from" rules are back exactly when no address whose add failed had
   * a rule before, the local routes exactly when none of them was there before, and the slot keeps its
   * interface exactly when it still counts something.
   */
  lemma UnwindExactly(s: Slot, dev: string, addrs: seq<string>, oks: seq<AddressCmds>)
    requires |oks| == |addrs| && s.name != "" && s.count >= |s.rules|
    ensures var r := DelAll(AddAll(s, dev, addrs, oks).0, dev, addrs);
      && r.routes == s.routes
      && (r.rules == s.rules <==> Failed(addrs, oks) !! s.rules)
      && (r.locals == s.locals <==> LocalsOf(dev, addrs) !! s.locals)
      && (r.rules == s.rules ==> r.count == s.count)
      && r.name == (if addrs == [] || r.count > 0 then s.name else "")
  {
    hide AddAll, DelAll, Added, Failed, LocalsOf, Granted;
    GrantedWithin(dev, addrs, oks);
    var up := AddAll(s, dev, addrs, oks).0;
    AddAllEffect(s, dev, addrs, oks);
    AddedOrFailed(addrs, oks);
    DelAllEffect(up, dev, addrs);
    var r, a, f := DelAll(up, dev, addrs), Added(addrs, oks), Failed(addrs, oks);
    Cancel(s.rules, a, f);
    assert r.rules == s.rules + a - (a + f);
    assert r.locals == up.locals - LocalsOf(dev, addrs) == s.locals - LocalsOf(dev, addrs);
    assert |s.rules + a| == |s.rules| + |a|;
  }

  /** Fresh addresses on a slot in use: a failed enable leaves the slot as it was, whichever adds failed. */
  lemma UnwindRestores(s: Slot, dev: string, addrs: seq<string>, oks: seq<AddressCmds>)
    requires |oks| == |addrs| && s.name != "" && s.count >= |s.rules|
    requires forall a | a in addrs :: a !in s.rules && Local(dev, a) !in s.locals
    ensures var r := DelAll(AddAll(s, dev, addrs, oks).0, dev, addrs); r.(name := s.name) == s
    ensures DelAll(AddAll(s, dev, addrs, oks).0, dev, addrs) == s <==> addrs == [] || s.count >= 1
  {
    AddedOrFailed(addrs, oks);
    assert forall x | x in Failed(addrs, oks) :: x in addrs by {
      forall x | x in Failed(addrs, oks) ensures x in addrs { assert multiset(addrs)[x] > 0; }
    }
    UnwindExactly(s, dev, addrs, oks);
  }

  // ---- Forward rules ---------------------------------------------------------------------

  function Est(p: Pair): Fwd { Established(p.extIface, p.intIface) }

  function Bad(p: Pair): Fwd { Invalid(p.intIface, p.extIface) }

  function Out(p: Pair): Fwd { Jump(p.intIface, p.extIface) }

  function Three(p: Pair): seq<Fwd> { [Est(p), Bad(p), Out(p)] }

  /** The counting rules, each added only when its quota name is new. */
  function CountWith(cs: seq<TetherStats.Counter>, p: Pair, cmds: Cmds): (seq<TetherStats.Counter>, bool) {
    var forth, back := TetherStats.Counter(p.intIface, p.extIface), TetherStats.Counter(p.extIface, p.intIface);
    if TetherStats.Named(cs, TetherStats.NameOf(forth)) then (cs, true)
    else if !cmds.countForth then (cs, false)
    else if TetherStats.Named(cs + [forth], TetherStats.NameOf(back)) then (cs + [forth], true)
    else if !cmds.countBack then (cs + [forth], false)
    else (cs + [forth] + [back], true)
  }

  function ForwardAdd(fw: seq<Fwd>, cs: seq<TetherStats.Counter>, p: Pair, cmds: Cmds): (seq<Fwd>, seq<TetherStats.Counter>, bool) {
    if !cmds.established then (fw, cs, false)
    else if !cmds.invalid then (RemoveFirst(fw + [Est(p)], Est(p)), cs, false)
    else if !cmds.jump then (RemoveFirst(RemoveFirst(fw + [Est(p), Bad(p)], Bad(p)), Est(p)), cs, false)
    else
      var (counted, ok) := CountWith(cs, p, cmds);
      if ok then (fw + Three(p), counted, true)
      else (RemoveFirst(RemoveFirst(fw + Three(p), Bad(p)), Est(p)), counted, false)
  }

  function ForwardDel(fw: seq<Fwd>, p: Pair): seq<Fwd> {
    RemoveFirst(RemoveFirst(RemoveFirst(fw, Est(p)), Bad(p)), Out(p))
  }

  /** setDefaults flushes every "ip rule", those of all tables included. */
  function Flushed(slots: seq<Slot>): (r: seq<Slot>)
    ensures |r| == |slots| && forall i | 0 <= i < |r| :: r[i] == slots[i].(rules := multiset{})
  {
    seq(|slots|, i requires 0 <= i < |slots| => slots[i].(rules := multiset{}))
  }

  function Defaults(w: World): World { World(Flushed(w.slots), [Drop], [], w.counters, 0) }

  /** Outcomes of the commands of setDefaults: the three that are checked, and the flush of the rules. */
  datatype DefaultCmds = DefaultCmds(flush: bool, drop: bool, flushNat: bool, rules: bool)

  const ALL_DEFAULTS := DefaultCmds(true, true, true, true)

  /** setDefaults stops at the first checked command that fails; only at the end does the count go to zero. */
  function DefaultsWith(w: World, d: DefaultCmds): (World, bool) {
    if !d.flush then (w, false)
    else if !d.drop then (w.(forward := []), false)
    else if !d.flushNat then (w.(forward := [Drop]), false)
    else (World(if d.rules then Flushed(w.slots) else w.slots, [Drop], [], w.counters, 0), true)
  }

  // ---- Enable and disable ----------------------------------------------------------------

  function Enabled(w: World, p: Pair, addrs: seq<string>, oks: seq<AddressCmds>, cmds: Cmds): (World, bool)
    requires |oks| == |addrs|
  {
    var (up, ok) := RoutesAdd(w.slots, p, addrs, oks);
    var down := RoutesDel(up, p, addrs);
    if !ok then (w.(slots := down), false)
    else if w.natCount == 0 && !cmds.masquerade then (Defaults(w.(slots := down)), false)
    else
      var m := if w.natCount == 0 then w.masquerade + [p.extIface] else w.masquerade;
      var (fw, cs, fok) := ForwardAdd(w.forward, w.counters, p, cmds);
      if fok then (World(up, RemoveFirst(fw, Drop) + [Drop], m, cs, w.natCount + 1), true)
      else
        var w1 := World(down, fw, m, cs, w.natCount);
        (if w.natCount == 0 then Defaults(w1) else w1, false)
  }

  function Disabled(w: World, p: Pair, addrs: seq<string>): World {
    var w1 := w.(forward := ForwardDel(w.forward, p), slots := RoutesDel(w.slots, p, addrs), natCount := w.natCount - 1);
    if w1.natCount <= 0 then Defaults(w1) else w1
  }

  class NatController {
    const tables: SecondaryTableController
    var forward: seq<Fwd>
    var masquerade: seq<string>
    var counters: seq<TetherStats.Counter>
    var natCount: int

    ghost function State(): World reads this, tables { World(tables.slots, forward, masquerade, counters, natCount) }

    constructor (t: SecondaryTableController)
      ensures tables == t && State() == World(t.slots, [], [], [], 0)
    {
      tables := t;
      forward, masquerade, counters, natCount := [], [], [], 0;
    }

    method SetDefaults(d: DefaultCmds) returns (rc: int)
      requires tables.Valid()
      modifies this, tables
      ensures (State(), rc == 0) == DefaultsWith(old(State()), d) && tables.Valid()
    {
      if !d.flush { return -1; }
      forward := [];
      if !d.drop { return -1; }
      forward := forward + [Drop];
      assert forward == [Drop];
      if !d.flushNat { return -1; }
      masquerade := [];
      if d.rules {
        tables.slots := Flushed(tables.slots);
      }
      natCount := 0;
      return 0;
    }

    method AddRoutes(p: Pair, addrs: seq<string>, oks: seq<AddressCmds>) returns (ret: int)
      requires tables.Valid() && |oks| == |addrs|
      modifies tables
      ensures tables.Valid()
      ensures (tables.slots, ret == 0) == RoutesAdd(old(tables.slots), p, addrs, oks)
    {
      hide FromStep, LocalStep;
      var k := tables.FindTableNumber(p.extIface);
      ret := 0;
      if k != -1 {
        ghost var was := tables.slots;
        ghost var want := AddAll(was[k], p.intIface, addrs, oks);
        assert addrs[0..] == addrs && oks[0..] == oks;
        for i := 0 to |addrs|
          invariant tables.Valid() && tables.slots == was[k := tables.slots[k]]
          invariant want.0 == AddAll(tables.slots[k], p.intIface, addrs[i..], oks[i..]).0
          invariant want.1 == (ret == 0 && AddAll(tables.slots[k], p.intIface, addrs[i..], oks[i..]).1)
        {
          assert addrs[i..][1..] == addrs[i + 1..] && oks[i..][1..] == oks[i + 1..];
          var a := tables.ModifyFromRule(k, true, addrs[i], oks[i].rule);
          var b := tables.ModifyLocalRoute(k, true, Local(p.intIface, addrs[i]), oks[i].route);
          ret := if ret == 0 && a == 0 && b == 0 then 0 else -1;
        }
      }
    }

    method DelRoutes(p: Pair, addrs: seq<string>)
      requires tables.Valid()
      modifies tables
      ensures tables.Valid()
      ensures tables.slots == RoutesDel(old(tables.slots), p, addrs)
    {
      hide FromStep, LocalStep;
      var k := tables.FindTableNumber(p.extIface);
      if k != -1 {
        ghost var was := tables.slots;
        assert addrs[0..] == addrs;
        for i := 0 to |addrs|
          invariant tables.Valid() && tables.slots == was[k := tables.slots[k]]
          invariant DelAll(was[k], p.intIface, addrs) == DelAll(tables.slots[k], p.intIface, addrs[i..])
        {
          assert addrs[i..][1..] == addrs[i + 1..];
          var a := tables.ModifyLocalRoute(k, false, Local(p.intIface, addrs[i]), false);
          var b := tables.ModifyFromRule(k, false, addrs[i], false);
        }
      }
    }

    method SetTetherCountingRules(p: Pair, cmds: Cmds) returns (rc: int)
      modifies `counters
      ensures (counters, rc == 0) == CountWith(old(counters), p, cmds)
    {
      var forth, back := TetherStats.Counter(p.intIface, p.extIface), TetherStats.Counter(p.extIface, p.intIface);
      if TetherStats.Named(counters, TetherStats.NameOf(forth)) { return 0; }
      if !cmds.countForth { return -1; }
      counters := counters + [forth];
      if TetherStats.Named(counters, TetherStats.NameOf(back)) { return 0; }
      if !cmds.countBack { return -1; }
      counters := counters + [back];
      return 0;
    }

    method AddForwardRules(p: Pair, cmds: Cmds) returns (rc: int)
      modifies `forward, `counters
      ensures (forward, counters, rc == 0) == ForwardAdd(old(forward), old(counters), p, cmds)
    {
      if !cmds.established { return -1; }
      forward := forward + [Est(p)];
      var undoInvalid := false;
      if cmds.invalid {
        forward := forward + [Bad(p)];
        assert forward == old(forward) + [Est(p), Bad(p)];
        undoInvalid := true;
        if cmds.jump {
          forward := forward + [Out(p)];
          assert forward == old(forward) + Three(p);
          rc := SetTetherCountingRules(p, cmds);
          if rc == 0 { return 0; }
        }
      }
      if undoInvalid {
        forward := RemoveFirst(forward, Bad(p));
      }
      forward := RemoveFirst(forward, Est(p));
      return -1;
    }

    method DelForwardRules(p: Pair)
      modifies `forward
      ensures forward == ForwardDel(old(forward), p)
    {
      forward := RemoveFirst(forward, Est(p));
      forward := RemoveFirst(forward, Bad(p));
      forward := RemoveFirst(forward, Out(p));
    }

    method EnableNat(p: Pair, addrCount: int, args: seq<string>, oks: seq<AddressCmds>, cmds: Cmds) returns (rc: int)
      requires tables.Valid() && |oks| == |args|
      modifies this, tables
      ensures tables.Valid()
      ensures !Accepted(p, addrCount, args) || p.intIface == p.extIface ==> rc != 0 && State() == old(State())
      ensures Accepted(p, addrCount, args) && p.intIface != p.extIface ==>
        (State(), rc == 0) == Enabled(old(State()), p, args[..Taken(addrCount)], oks[..Taken(addrCount)], cmds)
      ensures rc == 0 && p.extIface != "" ==>
        PairUp(old(tables.slots), tables.slots, p, args[..Taken(addrCount)]) && natCount == old(natCount) + 1
    {
      hide Enabled, PairUp;
      if |p.intIface| > IFNAMSIZ || |p.extIface| > IFNAMSIZ { return -1; }
      if p.intIface == p.extIface { return -1; }
      if |args| < addrCount { return -1; }
      var addrs, outcomes := args[..Taken(addrCount)], oks[..Taken(addrCount)];
      if p.extIface != "" && Enabled(State(), p, addrs, outcomes, cmds).1 {
        EnableAdds(State(), p, addrs, outcomes, cmds);
      }
      rc := EnablePair(p, addrs, outcomes, cmds);
    }

    /** enableNat past its checks. */
    method EnablePair(p: Pair, addrs: seq<string>, oks: seq<AddressCmds>, cmds: Cmds) returns (rc: int)
      requires tables.Valid() && |oks| == |addrs|
      modifies this, tables
      ensures tables.Valid() && (State(), rc == 0) == Enabled(old(State()), p, addrs, oks, cmds)
    {
      hide RoutesAdd, RoutesDel, ForwardAdd, Flushed, RemoveFirst;
      rc := AddRoutes(p, addrs, oks);
      if rc != 0 {
        DelRoutes(p, addrs);
        return -1;
      }
      if natCount == 0 {
        if !cmds.masquerade {
          DelRoutes(p, addrs);
          var ignored := SetDefaults(ALL_DEFAULTS);
          return -1;
        }
        masquerade := masquerade + [p.extIface];
      }
      rc := AddForwardRules(p, cmds);
      if rc != 0 {
        DelRoutes(p, addrs);
        if natCount == 0 {
          var ignored := SetDefaults(ALL_DEFAULTS);
        }
        return -1;
      }
      forward := RemoveFirst(forward, Drop);
      forward := forward + [Drop];
      natCount := natCount + 1;
      return 0;
    }

    method DisableNat(p: Pair, addrCount: int, args: seq<string>) returns (rc: int)
      requires tables.Valid()
      modifies this, tables
      ensures tables.Valid()
      ensures !Accepted(p, addrCount, args) ==> rc != 0 && State() == old(State())
      ensures Accepted(p, addrCount, args) ==> rc == 0 && State() == Disabled(old(State()), p, args[..Taken(addrCount)])
    {
      hide RoutesDel, ForwardDel, Flushed;
      if |p.intIface| > IFNAMSIZ || |p.extIface| > IFNAMSIZ { return -1; }
      if |args| < addrCount { return -1; }
      DelForwardRules(p);
      DelRoutes(p, args[..Taken(addrCount)]);
      natCount := natCount - 1;
      if natCount <= 0 {
        var ignored := SetDefaults(ALL_DEFAULTS);
      }
      return 0;
    }
  }

  predicate Accepted(p: Pair, addrCount: int, args: seq<string>) {
    |p.intIface| <= IFNAMSIZ && |p.extIface| <= IFNAMSIZ && addrCount <= |args|
  }

  /** A negative address count is read as none. */
  function Taken(addrCount: int): (n: nat)
    ensures addrCount == n || (addrCount < 0 && n == 0)
  {
    if addrCount < 0 then 0 else addrCount
  }

  // ---- What the forward chain lets through -----------------------------------------------

  datatype ConnState = IsNew | IsEstablished | IsInvalid

  datatype Packet = Packet(inIface: string, outIface: string, state: ConnState)

  predicate Hits(r: Fwd, k: Packet) {
    match r
    case Established(from, to) => k == Packet(from, to, IsEstablished)
    case Invalid(from, to) => k == Packet(from, to, IsInvalid)
    case Jump(from, to) => k.inIface == from && k.outIface == to
    case Drop => true
  }

  /** The first rule that matches decides; a packet no rule matches leaves the chain. */
  predicate Passes(fw: seq<Fwd>, k: Packet) {
    if fw == [] then true
    else if Hits(fw[0], k) then fw[0].Established? || fw[0].Jump?
    else Passes(fw[1..], k)
  }

  ghost predicate AllowedBy(p: Pair, k: Packet) {
    || k == Packet(p.extIface, p.intIface, IsEstablished)
    || (k.inIface == p.intIface && k.outIface == p.extIface && k.state != IsInvalid)
  }

  /** Tethering policy: out through a live pair unless invalid, back in only when established. */
  ghost predicate Allowed(live: seq<Pair>, k: Packet) { exists p :: p in live && AllowedBy(p, k) }

  ghost function Chain(live: seq<Pair>): seq<Fwd> {
    if live == [] then [] else Three(live[0]) + Chain(live[1..])
  }

  /** The controller is in step with the pairs that are up. */
  ghost predicate Consistent(w: World, live: seq<Pair>) {
    && w.forward == Chain(live) + [Drop]
    && w.natCount == |live|
    && |w.masquerade| == (if live == [] then 0 else 1)
  }

  lemma {:induction false} PassesChain(live: seq<Pair>, tail: seq<Fwd>, k: Packet)
    ensures Passes(Chain(live) + tail, k) <==> (Allowed(live, k) || (Passes(tail, k) && !DroppedBy(live, k)))
    ensures DroppedBy(live, k) ==> !Allowed(live, k)
  {
    if live == [] {
      assert Chain(live) + tail == tail;
    } else {
      var p, rest := live[0], Chain(live[1..]) + tail;
      PassesChain(live[1..], tail, k);
      assert Chain(live) + tail == [Est(p)] + ([Bad(p)] + ([Out(p)] + rest));
      PassesHead(Est(p), [Bad(p)] + ([Out(p)] + rest), k);
      PassesHead(Bad(p), [Out(p)] + rest, k);
      PassesHead(Out(p), rest, k);
      assert Allowed(live, k) <==> AllowedBy(p, k) || Allowed(live[1..], k) by {
        if Allowed(live, k) && !AllowedBy(p, k) {
          var q :| q in live && AllowedBy(q, k);
          assert q in live[1..];
        }
      }
      assert DroppedBy(live, k) <==> k == Packet(p.intIface, p.extIface, IsInvalid) || DroppedBy(live[1..], k) by {
        if DroppedBy(live, k) && k != Packet(p.intIface, p.extIface, IsInvalid) {
          var q :| q in live && k == Packet(q.intIface, q.extIface, IsInvalid);
          assert q in live[1..];
        }
      }
    }
  }

  ghost predicate DroppedBy(live: seq<Pair>, k: Packet) { exists p :: p in live && k == Packet(p.intIface, p.extIface, IsInvalid) }

  /** The defaults are in step with no pair up exactly when the checked commands succeed, or there was nothing to undo. */
  lemma DefaultsConsistentIff(w: World, d: DefaultCmds)
    ensures Consistent(DefaultsWith(w, d).0, []) <==>
      || (d.flush && d.drop && d.flushNat)
      || (w.masquerade == [] && w.natCount == 0 && (if d.flush then d.drop else w.forward == [Drop]))
  {
    assert Chain([]) + [Drop] == [Drop];
  }

  /** Success is reported exactly when the three checked commands succeed; the flush of the rules is not one of them. */
  lemma DefaultsReported(w: World, d: DefaultCmds)
    ensures var (w', ok) := DefaultsWith(w, d);
      && (ok <==> d.flush && d.drop && d.flushNat)
      && w'.counters == w.counters && w'.natCount == (if ok then 0 else w.natCount)
      && |w'.slots| == |w.slots|
      && forall i | 0 <= i < |w.slots| ::
           w'.slots[i] == w.slots[i].(rules := if ok && d.rules then multiset{} else w.slots[i].rules)
  {
  }

  /** When the drop rule cannot be put back, everything is forwarded and the count stands. */
  lemma OpenWithoutDrop(w: World, d: DefaultCmds, k: Packet)
    requires d.flush && !d.drop
    ensures var (w', ok) := DefaultsWith(w, d); !ok && w'.natCount == w.natCount && Passes(w'.forward, k)
  {
  }

  lemma PassesHead(r: Fwd, rest: seq<Fwd>, k: Packet)
    ensures Passes([r] + rest, k) == if Hits(r, k) then r.Established? || r.Jump? else Passes(rest, k)
  {
    assert ([r] + rest)[1..] == rest;
  }

  /** A consistent chain lets through exactly the traffic of the live pairs. */
  lemma ForwardPolicy(w: World, live: seq<Pair>, k: Packet)
    requires Consistent(w, live)
    ensures Passes(w.forward, k) <==> Allowed(live, k)
  {
    PassesChain(live, [Drop], k);
  }

  // ---- What enable and disable keep ------------------------------------------------------

  lemma {:induction false} ChainAppend(live: seq<Pair>, p: Pair)
    ensures Chain(live + [p]) == Chain(live) + Three(p)
  {
    if live == [] {
      assert live + [p] == [p] && [p][1..] == [];
    } else {
      ChainAppend(live[1..], p);
      assert (live + [p])[1..] == live[1..] + [p];
    }
  }

  /** Whose rules are in the chain. */
  lemma {:induction false} ChainMembers(live: seq<Pair>, p: Pair)
    ensures Est(p) in Chain(live) <==> p in live
    ensures Bad(p) in Chain(live) <==> p in live
    ensures Out(p) in Chain(live) <==> p in live
    ensures Drop !in Chain(live)
  {
    if live != [] {
      ChainMembers(live[1..], p);
      assert p in live <==> p == live[0] || p in live[1..];
    }
  }

  lemma {:induction false} ChainRemove(live: seq<Pair>, p: Pair, tail: seq<Fwd>)
    requires p in live
    ensures ForwardDel(Chain(live) + tail, p) == Chain(RemoveFirst(live, p)) + tail
  {
    hide RemoveFirst;
    var q, rest := live[0], Chain(live[1..]) + tail;
    assert Chain(live) + tail == Three(q) + rest;
    if q == p {
      assert Three(p) + rest == [Est(p)] + ([Bad(p)] + ([Out(p)] + rest));
      RemoveHead(Est(p), [Bad(p)] + ([Out(p)] + rest));
      RemoveHead(Bad(p), [Out(p)] + rest);
      RemoveHead(Out(p), rest);
      RemoveHead(p, live[1..]);
      assert live == [p] + live[1..];
    } else {
      SkipThree(q, rest, p);
      ChainRemove(live[1..], p, tail);
      RemoveFirstSkips([q], live[1..], p);
      assert live == [q] + live[1..];
      var left := RemoveFirst(live[1..], p);
      assert ([q] + left)[1..] == left;
      assert Three(q) + (Chain(left) + tail) == Chain([q] + left) + tail;
    }
  }

  lemma RemoveHead<T>(x: T, rest: seq<T>)
    ensures RemoveFirst([x] + rest, x) == rest
  {
  }

  lemma SkipThree(q: Pair, rest: seq<Fwd>, p: Pair)
    requires p != q
    ensures ForwardDel(Three(q) + rest, p) == Three(q) + ForwardDel(rest, p)
  {
    hide RemoveFirst;
    RemoveFirstSkips(Three(q), rest, Est(p));
    var r1 := RemoveFirst(rest, Est(p));
    RemoveFirstSkips(Three(q), r1, Bad(p));
    RemoveFirstSkips(Three(q), RemoveFirst(r1, Bad(p)), Out(p));
  }

  /** A successful enable appends the pair's rules and moves DROP to the end again. */
  lemma EnableAppends(w: World, live: seq<Pair>, p: Pair, addrs: seq<string>, oks: seq<AddressCmds>, cmds: Cmds)
    requires Consistent(w, live) && |oks| == |addrs| && Enabled(w, p, addrs, oks, cmds).1
    ensures Consistent(Enabled(w, p, addrs, oks, cmds).0, live + [p])
  {
    hide RoutesAdd, RoutesDel, CountWith;
    ChainAppend(live, p);
    ChainMembers(live, p);
    MoveDrop(Chain(live), Three(p));
  }

  lemma MoveDrop(a: seq<Fwd>, b: seq<Fwd>)
    requires Drop !in a
    ensures RemoveFirst(a + [Drop] + b, Drop) + [Drop] == a + b + [Drop]
  {
    assert a + [Drop] + b == a + ([Drop] + b);
    RemoveFirstSkips(a, [Drop] + b, Drop);
  }

  /** The failures after which the forward chain is what it was. */
  ghost predicate CleanFailure(live: seq<Pair>, p: Pair, routesUp: bool, cmds: Cmds) {
    !routesUp || !cmds.established || (p !in live && (!cmds.invalid || !cmds.jump))
  }

  /** For a pair that is up already, unwinding leaves a rule behind DROP. */
  lemma UnwindLivePair(fw: seq<Fwd>, p: Pair)
    requires fw != [] && fw[|fw| - 1] == Drop && Est(p) in fw && Bad(p) in fw
    ensures RemoveFirst(fw + [Est(p)], Est(p)) != fw
    ensures RemoveFirst(RemoveFirst(fw + [Est(p), Bad(p)], Bad(p)), Est(p)) != fw
    ensures RemoveFirst(RemoveFirst(fw + Three(p), Bad(p)), Est(p)) != fw
  {
    hide RemoveFirst;
    var e, b := Est(p), Bad(p);
    RemoveFirstInside(fw, [e], e);
    RemoveFirstInside(fw, [e, b], b);
    LastStays(RemoveFirst(fw, b) + [e, b], e);
    LastStays(fw + Three(p), b);
    LastStays(RemoveFirst(fw + Three(p), b), e);
  }

  /** For a new pair, unwinding takes away all but the jump rule. */
  lemma UnwindNewPair(fw: seq<Fwd>, p: Pair)
    requires Est(p) !in fw && Bad(p) !in fw
    ensures RemoveFirst(fw + [Est(p)], Est(p)) == fw
    ensures RemoveFirst(RemoveFirst(fw + [Est(p), Bad(p)], Bad(p)), Est(p)) == fw
    ensures RemoveFirst(RemoveFirst(fw + Three(p), Bad(p)), Est(p)) == fw + [Out(p)]
  {
    hide RemoveFirst;
    var e, b, o := Est(p), Bad(p), Out(p);
    RemoveFirstSkips(fw, [e], e);
    RemoveFirstSkips(fw, [e, b], b);
    RemoveFirstSkips(fw, [e, b, o], b);
    RemoveFirstSkips(fw, [e, o], e);
    RemoveTwo(e, b, o);
  }

  lemma UnwindForward(live: seq<Pair>, cs: seq<TetherStats.Counter>, p: Pair, cmds: Cmds)
    requires !ForwardAdd(Chain(live) + [Drop], cs, p, cmds).2
    ensures ForwardAdd(Chain(live) + [Drop], cs, p, cmds).0 == Chain(live) + [Drop] <==> CleanFailure(live, p, true, cmds)
    ensures p !in live && cmds.established && cmds.invalid && cmds.jump ==>
      ForwardAdd(Chain(live) + [Drop], cs, p, cmds).0 == Chain(live) + [Drop] + [Out(p)]
  {
    hide CountWith, Chain, RemoveFirst;
    ChainMembers(live, p);
    if p in live { UnwindLivePair(Chain(live) + [Drop], p); } else { UnwindNewPair(Chain(live) + [Drop], p); }
  }

  lemma RemoveTwo(e: Fwd, b: Fwd, o: Fwd)
    requires e != b && e != o && b != o
    ensures RemoveFirst([e], e) == [] && RemoveFirst([e, b], b) == [e]
    ensures RemoveFirst([e, b, o], b) == [e, o] && RemoveFirst([e, o], e) == [o]
  {
    RemoveFirstSkips([e], [b], b);
    RemoveFirstSkips([e], [b, o], b);
    assert [e] + [b] == [e, b] && [e] + [b, o] == [e, b, o] && RemoveFirst([b, o], b) == [o];
  }

  lemma LastStays(fw: seq<Fwd>, x: Fwd)
    requires fw != [] && fw[|fw| - 1] != x
    ensures var r := RemoveFirst(fw, x); r != [] && r[|r| - 1] == fw[|fw| - 1]
  {
    if |fw| > 1 && fw[0] != x { LastStays(fw[1..], x); }
  }

  /** After a failed enable: what is left of the chain, and when it is untouched. */
  lemma FailedEnable(w: World, live: seq<Pair>, p: Pair, addrs: seq<string>, oks: seq<AddressCmds>, cmds: Cmds)
    requires Consistent(w, live) && |oks| == |addrs| && !Enabled(w, p, addrs, oks, cmds).1
    ensures live == [] ==> Consistent(Enabled(w, p, addrs, oks, cmds).0, [])
    ensures live != [] ==>
      (Consistent(Enabled(w, p, addrs, oks, cmds).0, live) <==> CleanFailure(live, p, RoutesAdd(w.slots, p, addrs, oks).1, cmds))
  {
    hide RoutesAdd, RoutesDel, ForwardAdd, Chain, Flushed;
    if RoutesAdd(w.slots, p, addrs, oks).1 {
      if !ForwardAdd(Chain(live) + [Drop], w.counters, p, cmds).2 { UnwindForward(live, w.counters, p, cmds); }
    }
    ChainOfNone();
  }

  lemma ChainOfNone()
    ensures Chain([]) == []
  {
  }

  lemma DisableRemoves(w: World, live: seq<Pair>, p: Pair, addrs: seq<string>)
    requires Consistent(w, live) && p in live
    ensures Consistent(Disabled(w, p, addrs), RemoveFirst(live, p))
  {
    ChainRemove(live, p, [Drop]);
    hide RoutesDel, ForwardDel, Chain, Flushed;
    ChainOfNone();
  }

  /** Disabling a pair that is not up finds no rule to take out. */
  lemma {:induction false} NothingToRemove(live: seq<Pair>, p: Pair)
    requires p !in live
    ensures ForwardDel(Chain(live) + [Drop], p) == Chain(live) + [Drop] && RemoveFirst(live, p) == live
  {
    hide RemoveFirst;
    ChainMembers(live, p);
    var fw := Chain(live) + [Drop];
    RemoveFirstAbsent(fw, Est(p));
    RemoveFirstAbsent(fw, Bad(p));
    RemoveFirstAbsent(fw, Out(p));
    RemoveFirstAbsent(live, p);
  }

  /** A disable keeps chain and count in step exactly when its pair is up, or none is. */
  lemma DisableKeepsIff(w: World, live: seq<Pair>, p: Pair, addrs: seq<string>)
    requires Consistent(w, live)
    ensures Consistent(Disabled(w, p, addrs), RemoveFirst(live, p)) <==> p in live || live == []
  {
    if p in live {
      DisableRemoves(w, live, p, addrs);
    } else {
      NothingToRemove(live, p);
      hide RoutesDel, ForwardDel, Chain, Flushed, RemoveFirst;
      ChainOfNone();
    }
  }

  /**
   * Disabling a pair that is not up counts one that is up as gone: the rules stay while others are left by that
   * count, and with the last of them every pair is cut off.
   */
  lemma StrayDisable(w: World, live: seq<Pair>, q: Pair, addrs: seq<string>)
    requires Consistent(w, live) && live != [] && q !in live
    ensures var w' := Disabled(w, q, addrs);
      && w'.natCount == |live| - 1
      && w'.forward == (if |live| == 1 then [Drop] else w.forward)
      && (|live| == 1 ==> w'.masquerade == [] && forall k :: !Passes(w'.forward, k))
  {
    NothingToRemove(live, q);
    hide RoutesDel, ForwardDel, Chain, Flushed;
  }

  /** One pair up, another one disabled: nothing is forwarded any more. */
  lemma StrayDisableCutsOff(w: World, p: Pair, q: Pair, cmds: Cmds, k: Packet)
    requires Consistent(w, []) && p != q && Enabled(w, p, [], [], cmds).1
    ensures var up := Enabled(w, p, [], [], cmds).0;
      && (AllowedBy(p, k) ==> Passes(up.forward, k))
      && !Passes(Disabled(up, q, []).forward, k)
  {
    EnableAppends(w, [], p, [], [], cmds);
    var up := Enabled(w, p, [], [], cmds).0;
    assert [] + [p] == [p];
    hide Enabled, Disabled, Passes;
    ForwardPolicy(up, [p], k);
    assert p in [p];
    StrayDisable(up, [p], q, []);
  }

  // ---- Runs ------------------------------------------------------------------------------

  datatype Event = Enable(pair: Pair, addrs: seq<string>, oks: seq<AddressCmds>, cmds: Cmds) | Disable(pair: Pair, addrs: seq<string>)

  function Next(w: World, e: Event): World
    requires e.Enable? ==> |e.oks| == |e.addrs|
  {
    match e
    case Enable(p, addrs, oks, cmds) => Enabled(w, p, addrs, oks, cmds).0
    case Disable(p, addrs) => Disabled(w, p, addrs)
  }

  ghost function Live(w: World, live: seq<Pair>, e: Event): seq<Pair>
    requires e.Enable? ==> |e.oks| == |e.addrs|
  {
    match e
    case Enable(p, addrs, oks, cmds) => if Enabled(w, p, addrs, oks, cmds).1 then live + [p] else live
    case Disable(p, addrs) => RemoveFirst(live, p)
  }

  /** No pair is disabled that is not up while others are, and an enable over live pairs that fails does so cleanly. */
  ghost predicate Fair(w: World, live: seq<Pair>, e: Event)
    requires e.Enable? ==> |e.oks| == |e.addrs|
  {
    match e
    case Enable(p, addrs, oks, cmds) =>
      Enabled(w, p, addrs, oks, cmds).1 || live == [] || CleanFailure(live, p, RoutesAdd(w.slots, p, addrs, oks).1, cmds)
    case Disable(p, addrs) => p in live || live == []
  }

  /** Over every fair run the chain passes exactly the traffic of the pairs that are up, DROP staying last. */
  lemma {:induction false} RunForwardsLivePairs(w: World, live: seq<Pair>, es: seq<Event>)
    requires forall e | e in es && e.Enable? :: |e.oks| == |e.addrs|
    requires Consistent(w, live) && FairRun(w, live, es)
    ensures var (w', live') := After(w, live, es); Consistent(w', live') && forall k :: Passes(w'.forward, k) <==> Allowed(live', k)
    decreases es
  {
    if es == [] {
      forall k ensures Passes(w.forward, k) <==> Allowed(live, k) { ForwardPolicy(w, live, k); }
    } else {
      NextKeeps(w, live, es[0]);
      RunForwardsLivePairs(Next(w, es[0]), Live(w, live, es[0]), es[1..]);
    }
  }

  /** Each step keeps chain and count in step with the pairs that are up exactly when it is fair. */
  lemma NextKeeps(w: World, live: seq<Pair>, e: Event)
    requires e.Enable? ==> |e.oks| == |e.addrs|
    requires Consistent(w, live)
    ensures Consistent(Next(w, e), Live(w, live, e)) <==> Fair(w, live, e)
  {
    hide Consistent, Enabled, Disabled, CleanFailure;
    match e
    case Enable(p, addrs, oks, cmds) =>
      if Enabled(w, p, addrs, oks, cmds).1 { EnableAppends(w, live, p, addrs, oks, cmds); }
      else { FailedEnable(w, live, p, addrs, oks, cmds); }
    case Disable(p, addrs) => DisableKeepsIff(w, live, p, addrs);
  }

  ghost predicate FairRun(w: World, live: seq<Pair>, es: seq<Event>)
    requires forall e | e in es && e.Enable? :: |e.oks| == |e.addrs|
    decreases es
  {
    es == [] || (Fair(w, live, es[0]) && FairRun(Next(w, es[0]), Live(w, live, es[0]), es[1..]))
  }

  ghost function After(w: World, live: seq<Pair>, es: seq<Event>): (World, seq<Pair>)
    requires forall e | e in es && e.Enable? :: |e.oks| == |e.addrs|
    decreases es
  {
    if es == [] then (w, live) else After(Next(w, es[0]), Live(w, live, es[0]), es[1..])
  }

  // ---- Masquerading ----------------------------------------------------------------------

  /** The external interface of the pair that was enabled when none was up. */
  ghost function Gate(w: World, live: seq<Pair>, gate: string, e: Event): string
    requires e.Enable? ==> |e.oks| == |e.addrs|
  {
    if e.Enable? && live == [] && Enabled(w, e.pair, e.addrs, e.oks, e.cmds).1 then e.pair.extIface else gate
  }

  ghost function GateAfter(w: World, live: seq<Pair>, gate: string, es: seq<Event>): string
    requires forall e | e in es && e.Enable? :: |e.oks| == |e.addrs|
    decreases es
  {
    if es == [] then gate else GateAfter(Next(w, es[0]), Live(w, live, es[0]), Gate(w, live, gate, es[0]), es[1..])
  }

  lemma NextMasquerades(w: World, live: seq<Pair>, gate: string, e: Event)
    requires e.Enable? ==> |e.oks| == |e.addrs|
    requires Consistent(w, live) && Fair(w, live, e) && (live != [] ==> w.masquerade == [gate])
    ensures Live(w, live, e) != [] ==> Next(w, e).masquerade == [Gate(w, live, gate, e)]
  {
    hide RoutesAdd, RoutesDel, ForwardAdd, ForwardDel, Chain, Flushed, CleanFailure;
  }

  ghost predicate AllMasqueraded(w: World, live: seq<Pair>) { forall p | p in live :: p.extIface in w.masquerade }

  /**
   * Over every fair run that starts with no pair up, all traffic that leaves by a live pair is masqueraded exactly
   * when all live pairs leave by the interface of the pair that was enabled while none was up.
   */
  lemma RunMasqueradesIff(w: World, es: seq<Event>)
    requires forall e | e in es && e.Enable? :: |e.oks| == |e.addrs|
    requires Consistent(w, []) && FairRun(w, [], es)
    ensures var (w', live) := After(w, [], es);
      AllMasqueraded(w', live) <==> forall p | p in live :: p.extIface == GateAfter(w, [], "", es)
  {
    RunMasquerades(w, [], "", es);
    var (w', live) := After(w, [], es);
    if live != [] {
      assert live[0] in live;
    }
  }

  lemma {:induction false} RunMasquerades(w: World, live: seq<Pair>, gate: string, es: seq<Event>)
    requires forall e | e in es && e.Enable? :: |e.oks| == |e.addrs|
    requires Consistent(w, live) && FairRun(w, live, es) && (live != [] ==> w.masquerade == [gate])
    ensures var (w', live') := After(w, live, es); live' != [] ==> w'.masquerade == [GateAfter(w, live, gate, es)]
    decreases es
  {
    hide Consistent, Fair, Next, Live, Gate;
    if es != [] {
      NextKeeps(w, live, es[0]);
      NextMasquerades(w, live, gate, es[0]);
      RunMasquerades(Next(w, es[0]), Live(w, live, es[0]), Gate(w, live, gate, es[0]), es[1..]);
    }
  }

  /** Two pairs with different external interfaces: the second is forwarded, but not masqueraded. */
  lemma SecondPairNotMasqueraded(w: World, p: Pair, q: Pair, pCmds: Cmds, qCmds: Cmds, k: Packet)
    requires Consistent(w, []) && p.extIface != q.extIface && Enabled(w, p, [], [], pCmds).1
    requires Enabled(Enabled(w, p, [], [], pCmds).0, q, [], [], qCmds).1
    ensures var w2 := Enabled(Enabled(w, p, [], [], pCmds).0, q, [], [], qCmds).0;
      q.extIface !in w2.masquerade && (AllowedBy(q, k) ==> Passes(w2.forward, k))
  {
    var w1 := Enabled(w, p, [], [], pCmds).0;
    EnableAppends(w, [], p, [], [], pCmds);
    assert [] + [p] == [p];
    EnableAppends(w1, [p], q, [], [], qCmds);
    assert [p] + [q] == [p, q];
    hide Passes, Chain, ForwardAdd;
    ForwardPolicy(Enabled(w1, q, [], [], qCmds).0, [p, q], k);
    assert q in [p, q];
  }

  /**
   * When the counting rules fail, the pair's last forward rule is left behind DROP; the next enable of any other pair
   * moves DROP past it, and the pair whose enable failed is then let through, invalid packets included.
   */
  lemma LeftoverOpensPair(w: World, live: seq<Pair>, p: Pair, cmds: Cmds, r: Pair, rCmds: Cmds)
    requires Consistent(w, live) && live != [] && p !in live && p != r
    requires cmds.established && cmds.invalid && cmds.jump && !CountWith(w.counters, p, cmds).1
    requires Enabled(Enabled(w, p, [], [], cmds).0, r, [], [], rCmds).1
    ensures var w2 := Enabled(Enabled(w, p, [], [], cmds).0, r, [], [], rCmds).0;
      var k := Packet(p.intIface, p.extIface, IsInvalid);
      !Allowed(live + [r], k) && Passes(w2.forward, k)
  {
    hide RemoveFirst, CountWith, Chain, Passes;
    var w1, k := Enabled(w, p, [], [], cmds).0, Packet(p.intIface, p.extIface, IsInvalid);
    UnwindForward(live, w.counters, p, cmds);
    assert w1.forward == Chain(live) + [Drop] + [Out(p)];
    var w2 := Enabled(w1, r, [], [], rCmds).0;
    ChainMembers(live, p);
    assert Chain(live) + [Drop] + [Out(p)] + Three(r) == Chain(live) + [Drop] + ([Out(p)] + Three(r));
    MoveDrop(Chain(live), [Out(p)] + Three(r));
    var tail := [Out(p)] + (Three(r) + [Drop]);
    assert w2.forward == Chain(live) + tail;
    PassesHead(Out(p), Three(r) + [Drop], k);
    PassesChain(live, tail, k);
  }

  /** Enabling a pair with fresh addresses and disabling it again changes nothing but the counting rules. */
  lemma DisableUndoesEnable(w: World, live: seq<Pair>, p: Pair, addrs: seq<string>, oks: seq<AddressCmds>, cmds: Cmds)
    requires Consistent(w, live) && live != [] && p !in live && |oks| == |addrs| && p.extIface != ""
    requires Enabled(w, p, addrs, oks, cmds).1
    requires Fresh(w.slots, p, addrs)
    ensures var (up, _) := Enabled(w, p, addrs, oks, cmds); Disabled(up, p, addrs) == w.(counters := up.counters)
  {
    var up := Enabled(w, p, addrs, oks, cmds).0;
    EnableAppends(w, live, p, addrs, oks, cmds);
    ChainRemove(live + [p], p, [Drop]);
    RemoveFirstSkips(live, [p], p);
    assert live + [] == live;
    RoutesUndone(w.slots, p, addrs, oks);
  }

  // ---- What a successful enable leaves ---------------------------------------------------

  /** Whether the counting rules of a pair go in: each is there under its name already, or its command succeeds. */
  predicate Countable(cs: seq<TetherStats.Counter>, p: Pair, cmds: Cmds) {
    var forth, back := p.intIface + "_" + p.extIface, p.extIface + "_" + p.intIface;
    TetherStats.Named(cs, forth) || (cmds.countForth && (back == forth || TetherStats.Named(cs, back) || cmds.countBack))
  }

  lemma CountWithIff(cs: seq<TetherStats.Counter>, p: Pair, cmds: Cmds)
    ensures CountWith(cs, p, cmds).1 <==> Countable(cs, p, cmds)
  {
    var forth := TetherStats.Counter(p.intIface, p.extIface);
    forall name ensures TetherStats.Named(cs + [forth], name) <==> TetherStats.Named(cs, name) || name == TetherStats.NameOf(forth) {
      assert (cs + [forth])[|cs|] == forth;
    }
  }

  /** An enable succeeds exactly when every command it needs does. */
  lemma EnableSucceedsIff(w: World, p: Pair, addrs: seq<string>, oks: seq<AddressCmds>, cmds: Cmds)
    requires |oks| == |addrs| && p.extIface != ""
    ensures var k := Find(w.slots, p.extIface);
      Enabled(w, p, addrs, oks, cmds).1 <==>
      && (k >= 0 ==> Clear(w.slots[k], p.intIface, addrs, oks))
      && (w.natCount == 0 ==> cmds.masquerade)
      && cmds.established && cmds.invalid && cmds.jump && Countable(w.counters, p, cmds)
  {
    hide AddAll, Clear, RoutesDel, CountWith, Countable, Flushed, RemoveFirst;
    var k := Find(w.slots, p.extIface);
    if k >= 0 { AddAllSucceedsIff(w.slots[k], p.intIface, addrs, oks); }
    CountWithIff(w.counters, p, cmds);
  }

  /**
   * A successful enable puts exactly one rule and one local route for each address into the table of the external
   * interface, if it has one, and leaves the other tables alone.
   */
  lemma EnableAdds(w: World, p: Pair, addrs: seq<string>, oks: seq<AddressCmds>, cmds: Cmds)
    requires |oks| == |addrs| && p.extIface != "" && Enabled(w, p, addrs, oks, cmds).1
    ensures var k, w' := Find(w.slots, p.extIface), Enabled(w, p, addrs, oks, cmds).0;
      && w'.natCount == w.natCount + 1
      && w'.masquerade == w.masquerade + (if w.natCount == 0 then [p.extIface] else [])
      && PairUp(w.slots, w'.slots, p, addrs)
  {
    hide AddAll, Clear, RoutesDel, ForwardAdd, Countable, Flushed, RemoveFirst;
    EnableSucceedsIff(w, p, addrs, oks, cmds);
    var k := Find(w.slots, p.extIface);
    if k >= 0 { AddressesUp(w.slots[k], p.intIface, addrs, oks); }
  }

  /**
   * A disable takes one rule and the local route of each address out of the table of the external interface and
   * leaves the other tables alone; with the last pair the rules of all tables go.
   */
  lemma DisableTakes(w: World, p: Pair, addrs: seq<string>)
    requires var k := Find(w.slots, p.extIface); k >= 0 ==> w.slots[k].count >= |addrs| + |w.slots[k].rules|
    requires p.extIface != ""
    ensures var k, w' := Find(w.slots, p.extIface), Disabled(w, p, addrs);
      forall i | 0 <= i < |w.slots| ::
        && w'.slots[i].routes == w.slots[i].routes
        && w'.slots[i].locals == (if i == k then w.slots[i].locals - LocalsOf(p.intIface, addrs) else w.slots[i].locals)
        && w'.slots[i].rules ==
           if w.natCount <= 1 then multiset{} else if i == k then w.slots[i].rules - multiset(addrs) else w.slots[i].rules
  {
    hide DelAll, ForwardDel, LocalsOf;
    var k := Find(w.slots, p.extIface);
    if k >= 0 { DelAllEffect(w.slots[k], p.intIface, addrs); }
  }

  /** The addresses are up in the table of the external interface, if it has one, and the other tables are as they were. */
  ghost predicate PairUp(slots: seq<Slot>, slots': seq<Slot>, p: Pair, addrs: seq<string>) {
    var k := Find(slots, p.extIface);
    if k < 0 then slots' == slots
    else |slots'| == |slots| && slots' == slots[k := slots'[k]] && WithAddresses(slots[k], slots'[k], p.intIface, addrs)
  }

  /** One rule and one local route more for each address, and nothing else but the count. */
  ghost predicate WithAddresses(s: Slot, s': Slot, dev: string, addrs: seq<string>) {
    && s'.rules == s.rules + multiset(addrs)
    && s'.locals == s.locals + (set a | a in addrs :: Local(dev, a))
    && s'.count == s.count + 2 * |addrs|
    && s'.routes == s.routes && s'.name == s.name
  }

  lemma AddressesUp(s: Slot, dev: string, addrs: seq<string>, oks: seq<AddressCmds>)
    requires |oks| == |addrs| && s.name != "" && Clear(s, dev, addrs, oks)
    ensures WithAddresses(s, AddAll(s, dev, addrs, oks).0, dev, addrs)
  {
    hide AddAll, Granted, Added;
    AddAllEffect(s, dev, addrs, oks);
    AllGranted(dev, addrs, oks);
  }

  /** Counting rules are only ever added, whatever fails, so that the statistics of a pair survive its end. */
  lemma {:induction false} CountersStick(w: World, live: seq<Pair>, es: seq<Event>)
    requires forall e | e in es && e.Enable? :: |e.oks| == |e.addrs|
    ensures w.counters <= After(w, live, es).0.counters
    decreases es
  {
    if es != [] {
      NextCounts(w, es[0]);
      CountersStick(Next(w, es[0]), Live(w, live, es[0]), es[1..]);
    }
  }

  lemma NextCounts(w: World, e: Event)
    requires e.Enable? ==> |e.oks| == |e.addrs|
    ensures w.counters <= Next(w, e).counters
    ensures e.Disable? ==> Next(w, e).counters == w.counters
  {
    hide RoutesAdd, RoutesDel, Flushed, RemoveFirst, TetherStats.Named;
  }

  /** A failed enable leaves one counting rule behind exactly when the second of the two failed. */
  lemma FailedEnableCounters(w: World, p: Pair, addrs: seq<string>, oks: seq<AddressCmds>, cmds: Cmds)
    requires |oks| == |addrs| && !Enabled(w, p, addrs, oks, cmds).1
    ensures var forth := TetherStats.Counter(p.intIface, p.extIface);
      Enabled(w, p, addrs, oks, cmds).0.counters == w.counters +
        if RoutesAdd(w.slots, p, addrs, oks).1 && (w.natCount == 0 ==> cmds.masquerade) &&
           cmds.established && cmds.invalid && cmds.jump && cmds.countForth &&
           !TetherStats.Named(w.counters, p.intIface + "_" + p.extIface)
        then [forth] else []
  {
    hide RoutesAdd, RoutesDel, Flushed, RemoveFirst, TetherStats.Named;
    assert w.counters + [] == w.counters;
  }

  /** The addresses have no rule or local route yet, and the table in use counts something. */
  ghost predicate Fresh(slots: seq<Slot>, p: Pair, addrs: seq<string>) {
    var k := Find(slots, p.extIface);
    k >= 0 ==>
      && slots[k].count >= 1 && slots[k].count >= |slots[k].rules|
      && forall a | a in addrs :: a !in slots[k].rules && Local(p.intIface, a) !in slots[k].locals
  }

  lemma SameNames(a: seq<Slot>, b: seq<Slot>, name: string)
    requires |a| == |b| && forall i | 0 <= i < |a| :: a[i].name == b[i].name
    ensures Find(a, name) == Find(b, name)
  {
  }

  lemma RoutesUndone(slots: seq<Slot>, p: Pair, addrs: seq<string>, oks: seq<AddressCmds>)
    requires |oks| == |addrs| && p.extIface != "" && Fresh(slots, p, addrs)
    ensures RoutesDel(RoutesAdd(slots, p, addrs, oks).0, p, addrs) == slots
  {
    hide AddAll, DelAll;
    var k := Find(slots, p.extIface);
    if k >= 0 {
      AddAllEffect(slots[k], p.intIface, addrs, oks);
      UnwindRestores(slots[k], p.intIface, addrs, oks);
      var up := RoutesAdd(slots, p, addrs, oks).0;
      SameNames(slots, up, p.extIface);
    }
  }

  ghost predicate NoRules(slots: seq<Slot>) { forall i | 0 <= i < |slots| :: slots[i].rules == multiset{} }

  /**
   * A failed enable over fresh addresses on a table in use leaves every table as it was, whichever commands
   * failed, except that with no pair up a failure past the routes flushes the rules of all tables.
   */
  lemma FailedEnableRestoresTables(w: World, p: Pair, addrs: seq<string>, oks: seq<AddressCmds>, cmds: Cmds)
    requires |oks| == |addrs| && p.extIface != "" && Fresh(w.slots, p, addrs)
    requires !Enabled(w, p, addrs, oks, cmds).1
    ensures Enabled(w, p, addrs, oks, cmds).0.slots == w.slots <==>
      (w.natCount != 0 || !RoutesAdd(w.slots, p, addrs, oks).1 || NoRules(w.slots))
  {
    RoutesUndone(w.slots, p, addrs, oks);
    FlushIsQuietIff(w.slots);
  }

  lemma FlushIsQuietIff(slots: seq<Slot>)
    ensures Flushed(slots) == slots <==> NoRules(slots)
  {
    if Flushed(slots) == slots {
      forall i | 0 <= i < |slots| ensures slots[i].rules == multiset{} { assert Flushed(slots)[i] == slots[i]; }
    }
  }

  /** The flush of setDefaults does not touch the counts: they stay exact only when there was no rule to flush. */
  lemma FlushKeepsCountsIff(slots: seq<Slot>, asked: seq<int>)
    requires SecondaryTables.Inv(slots, asked)
    ensures SecondaryTables.Inv(Flushed(slots), asked) <==> NoRules(slots)
  {
    if SecondaryTables.Inv(Flushed(slots), asked) {
      forall i | 0 <= i < |slots| ensures slots[i].rules == multiset{} {
        assert Exact(slots[i], asked[i]) && Exact(Flushed(slots)[i], asked[i]);
      }
    }
  }

  /** The counting rules after a run of enables that all succeed are those of the tethering statistics. */
  lemma {:induction false} EnablesCountPairs(w: World, es: seq<Event>)
    requires forall e | e in es :: e.Enable? && |e.oks| == |e.addrs|
    requires AllSucceed(w, es)
    ensures After(w, [], es).0.counters == TetherStats.CountAll(w.counters, PairsOf(es))
    decreases es
  {
    if es != [] {
      EnablesCountPairs(Next(w, es[0]), es[1..]);
      LiveIsIgnored(Next(w, es[0]), Live(w, [], es[0]), [], es[1..]);
      OneEnableCounts(w, es[0]);
      assert PairsOf(es)[1..] == PairsOf(es[1..]);
    }
  }

  lemma OneEnableCounts(w: World, e: Event)
    requires e.Enable? && |e.oks| == |e.addrs| && Enabled(w, e.pair, e.addrs, e.oks, e.cmds).1
    ensures Next(w, e).counters == TetherStats.CountPair(w.counters, e.pair.intIface, e.pair.extIface)
  {
    hide RoutesAdd, RoutesDel, Flushed, RemoveFirst;
  }

  lemma {:induction false} LiveIsIgnored(w: World, a: seq<Pair>, b: seq<Pair>, es: seq<Event>)
    requires forall e | e in es && e.Enable? :: |e.oks| == |e.addrs|
    ensures After(w, a, es).0 == After(w, b, es).0
    decreases es
  {
    if es != [] { LiveIsIgnored(Next(w, es[0]), Live(w, a, es[0]), Live(w, b, es[0]), es[1..]); }
  }

  ghost predicate AllSucceed(w: World, es: seq<Event>)
    requires forall e | e in es :: e.Enable? && |e.oks| == |e.addrs|
    decreases es
  {
    es == [] || (Enabled(w, es[0].pair, es[0].addrs, es[0].oks, es[0].cmds).1 && AllSucceed(Next(w, es[0]), es[1..]))
  }

  ghost function PairsOf(es: seq<Event>): seq<Pair> {
    if es == [] then [] else [es[0].pair] + PairsOf(es[1..])
  }
}
