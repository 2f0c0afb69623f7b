/**
 * The routing-table slots of netd's SecondaryTableController: ten tables handed to interfaces on
 * demand, reference counted by the routes and rules put into them.
 */
module SecondaryTables {

  const INTERFACES_TRACKED: nat := 10
  const IFNAMSIZ: nat := 16

  datatype Route = Route(dest: string, gateway: string, dev: string)

  datatype Local = Local(dev: string, addr: string)

  /**
   * One slot: the interface name ("" when the slot is free) and the rule count that netd keeps, and what the
   * kernel holds for the slot's table: routes, local routes and "from" rules.
   */
  datatype Slot = Slot(name: string, count: int, routes: set<Route>, locals: set<Local>, rules: multiset<string>)

  const FREE := Slot("", 0, {}, {}, multiset{})

  // ---- Single steps on a slot ------------------------------------------------------------

  function Up(s: Slot): Slot { s.(count := s.count + 1) }

  function Down(s: Slot): Slot { if s.count - 1 < 1 then s.(count := 0, name := "") else s.(count := s.count - 1) }

  /**
   * The ip commands: an add can fail for any reason (`ok` is its outcome) and does fail on a route that is there
   * or a device without a name; a delete succeeds exactly when there is something to delete.
   */
  function RouteStep(s: Slot, add: bool, r: Route, ok: bool): (Slot, bool) {
    if add then
      if ok && r !in s.routes && r.dev != "" then (Up(Up(s.(routes := s.routes + {r}))), true) else (s, false)
    else
      if r in s.routes then (Down(Down(s.(routes := s.routes - {r}))), true) else (s, false)
  }

  function FromStep(s: Slot, add: bool, addr: string, ok: bool): (Slot, bool) {
    if s.name == "" then (s, false)
    else if add then
      if ok then (Up(s.(rules := s.rules + multiset{addr})), true) else (s, false)
    else
      if addr in s.rules then (Down(s.(rules := s.rules - multiset{addr})), true) else (s, false)
  }

  /** The count moves whether or not the command succeeds. */
  function LocalStep(s: Slot, add: bool, l: Local, ok: bool): (Slot, bool) {
    if s.name == "" then (s, false)
    else if add then
      if ok && l !in s.locals then (Up(s.(locals := s.locals + {l})), true) else (Up(s), false)
    else
      if l in s.locals then (Down(s.(locals := s.locals - {l})), true) else (Down(s), false)
  }

  // ---- Finding a slot --------------------------------------------------------------------

  /** The first slot with this name, or -1; "" looks for a free slot. */
  function Find(slots: seq<Slot>, name: string): (k: int)
    ensures -1 <= k < |slots|
    ensures k >= 0 ==> slots[k].name == name && forall j | 0 <= j < k :: slots[j].name != name
    ensures k < 0 ==> forall j | 0 <= j < |slots| :: slots[j].name != name
  {
    if slots == [] then -1
    else if slots[0].name == name then 0
    else var k := Find(slots[1..], name); if k < 0 then -1 else k + 1
  }

  function Stored(iface: string): string { if |iface| <= IFNAMSIZ then iface else iface[..IFNAMSIZ] }

  /** The slot of an interface, claiming a free one for a new interface; -1 when all are taken. */
  function Claim(slots: seq<Slot>, iface: string): (r: (seq<Slot>, int))
    ensures |r.0| == |slots| && -1 <= r.1 < |slots|
  {
    var k := Find(slots, iface);
    if k >= 0 then (slots, k)
    else
      var f := Find(slots, "");
      if f < 0 then (slots, -1) else (slots[f := slots[f].(name := Stored(iface))], f)
  }

  lemma ClaimFinds(slots: seq<Slot>, iface: string, claimed: seq<Slot>, k: nat, s: Slot)
    requires Claim(slots, iface) == (claimed, k) && |iface| <= IFNAMSIZ && k < |claimed| && s.name == claimed[k].name
    ensures Find(claimed[k := s], iface) == k
  {
    hide Find, Claim;
    ClaimNamed(slots, iface, claimed, k);
    FindIs(claimed[k := s], iface, k);
  }

  lemma ClaimNamed(slots: seq<Slot>, iface: string, claimed: seq<Slot>, k: nat)
    requires Claim(slots, iface) == (claimed, k) && |iface| <= IFNAMSIZ && k < |claimed|
    ensures claimed[k].name == iface && forall j | 0 <= j < k :: claimed[j].name != iface
  {
    hide Find, Stored;
    assert Stored(iface) == iface by { ShortStored(iface); }
    var f := Find(slots, iface);
    if f < 0 {
      assert claimed == slots[k := slots[k].(name := iface)];
    }
  }

  lemma ShortStored(iface: string)
    requires |iface| <= IFNAMSIZ
    ensures Stored(iface) == iface
  {
  }

  lemma FindIs(slots: seq<Slot>, name: string, k: nat)
    requires k < |slots| && slots[k].name == name && forall j | 0 <= j < k :: slots[j].name != name
    ensures Find(slots, name) == k
  {
    hide Find;
  }

  lemma RouteKeepsName(s: Slot, r: Route, ok: bool)
    ensures RouteStep(s, true, r, ok).0.name == s.name
  {
  }

  // ---- Runs ------------------------------------------------------------------------------

  datatype Op =
    | AddRoute(iface: string, dest: string, gateway: string, ok: bool)
    | RemoveRoute(iface: string, dest: string, gateway: string)
    | FromRule(index: nat, add: bool, addr: string, ok: bool)
    | LocalRoute(index: nat, add: bool, local: Local, ok: bool)
    | UseMark(iface: string)

  function Step(slots: seq<Slot>, op: Op): (r: seq<Slot>)
    ensures |r| == |slots|
  {
    match op
    case AddRoute(iface, dest, gateway, ok) =>
      var (claimed, k) := Claim(slots, iface);
      if k < 0 then slots else claimed[k := RouteStep(claimed[k], true, Route(dest, gateway, iface), ok).0]
    case RemoveRoute(iface, dest, gateway) =>
      var k := Find(slots, iface);
      if k < 0 then slots else slots[k := RouteStep(slots[k], false, Route(dest, gateway, iface), false).0]
    case FromRule(index, add, addr, ok) =>
      if index < |slots| then slots[index := FromStep(slots[index], add, addr, ok).0] else slots
    case LocalRoute(index, add, local, ok) =>
      if index < |slots| then slots[index := LocalStep(slots[index], add, local, ok).0] else slots
    case UseMark(iface) => Claim(slots, iface).0
  }

  /** Local routes asked for and not given back, slot by slot. */
  function Asked(slots: seq<Slot>, asked: seq<int>, op: Op): (r: seq<int>)
    requires |asked| == |slots|
    ensures |r| == |asked|
  {
    if op.LocalRoute? && op.index < |slots| && slots[op.index].name != ""
    then asked[op.index := asked[op.index] + if op.add then 1 else -1]
    else asked
  }

  /** Balanced use: only local routes that were asked for are given back. */
  ghost predicate Balanced(slots: seq<Slot>, asked: seq<int>, op: Op)
    requires |asked| == |slots|
  {
    op.LocalRoute? && op.index < |slots| && slots[op.index].name != "" && !op.add ==> asked[op.index] > 0
  }

  function Run(slots: seq<Slot>, ops: seq<Op>): seq<Slot>
    decreases ops
  {
    if ops == [] then slots else Run(Step(slots, ops[0]), ops[1..])
  }

  function AskedAfter(slots: seq<Slot>, asked: seq<int>, ops: seq<Op>): seq<int>
    requires |asked| == |slots|
    decreases ops
  {
    if ops == [] then asked else AskedAfter(Step(slots, ops[0]), Asked(slots, asked, ops[0]), ops[1..])
  }

  ghost predicate BalancedRun(slots: seq<Slot>, asked: seq<int>, ops: seq<Op>)
    requires |asked| == |slots|
    decreases ops
  {
    ops == [] ||
    (Balanced(slots, asked, ops[0]) && BalancedRun(Step(slots, ops[0]), Asked(slots, asked, ops[0]), ops[1..]))
  }

  // ---- The count is exact ----------------------------------------------------------------

  /** What a slot's count stands for. */
  ghost function Items(s: Slot, asked: int): int { 2 * |s.routes| + |s.rules| + asked }

  ghost predicate Exact(s: Slot, asked: int) {
    asked >= 0 && s.count == Items(s, asked) && (s.count > 0 ==> s.name != "") && forall r | r in s.routes :: r.dev != ""
  }

  ghost predicate Inv(slots: seq<Slot>, asked: seq<int>) {
    |slots| == |asked| && forall i | 0 <= i < |slots| :: Exact(slots[i], asked[i])
  }

  lemma RouteStepExact(s: Slot, asked: int, add: bool, r: Route, ok: bool)
    requires Exact(s, asked) && (s.name != "" || r.dev == "")
    ensures Exact(RouteStep(s, add, r, ok).0, asked)
    ensures s.name != "" && RouteStep(s, add, r, ok).0.name == "" <==>
      s.name != "" && Items(s, asked) > 0 && Items(RouteStep(s, add, r, ok).0, asked) == 0
  {
    if add {
      if r !in s.routes { assert |s.routes + {r}| == |s.routes| + 1; }
    } else if r in s.routes {
      assert |s.routes - {r}| == |s.routes| - 1;
    }
  }

  lemma FromStepExact(s: Slot, asked: int, add: bool, addr: string, ok: bool)
    requires Exact(s, asked)
    ensures Exact(FromStep(s, add, addr, ok).0, asked)
    ensures s.name != "" && FromStep(s, add, addr, ok).0.name == "" <==>
      s.name != "" && Items(s, asked) > 0 && Items(FromStep(s, add, addr, ok).0, asked) == 0
  {
    if add { assert |s.rules + multiset{addr}| == |s.rules| + 1; }
    else if addr in s.rules { assert |s.rules - multiset{addr}| == |s.rules| - 1; }
  }

  lemma ClaimKeeps(slots: seq<Slot>, asked: seq<int>, iface: string)
    requires Inv(slots, asked)
    ensures Inv(Claim(slots, iface).0, asked)
    ensures Claim(slots, iface).1 >= 0 && iface != "" ==> Claim(slots, iface).0[Claim(slots, iface).1].name != ""
  {
  }

  lemma StepKeeps(slots: seq<Slot>, asked: seq<int>, op: Op)
    requires Inv(slots, asked) && Balanced(slots, asked, op)
    ensures Inv(Step(slots, op), Asked(slots, asked, op))
  {
    hide Claim, RouteStep, FromStep, Find;
    match op
    case AddRoute(iface, dest, gateway, ok) =>
      ClaimKeeps(slots, asked, iface);
      var (claimed, k) := Claim(slots, iface);
      if k >= 0 { RouteStepExact(claimed[k], asked[k], true, Route(dest, gateway, iface), ok); }
    case RemoveRoute(iface, dest, gateway) =>
      var k := Find(slots, iface);
      if k >= 0 { RouteStepExact(slots[k], asked[k], false, Route(dest, gateway, iface), false); }
    case FromRule(index, add, addr, ok) =>
      if index < |slots| { FromStepExact(slots[index], asked[index], add, addr, ok); }
    case LocalRoute(index, add, local, ok) =>
    case UseMark(iface) => ClaimKeeps(slots, asked, iface);
  }

  /** Over every balanced run each slot's count is 2 * routes + from-rules + local routes asked for. */
  lemma {:induction false} RunKeeps(slots: seq<Slot>, asked: seq<int>, ops: seq<Op>)
    requires Inv(slots, asked) && BalancedRun(slots, asked, ops)
    ensures Inv(Run(slots, ops), AskedAfter(slots, asked, ops))
    decreases ops
  {
    if ops != [] {
      StepKeeps(slots, asked, ops[0]);
      RunKeeps(Step(slots, ops[0]), Asked(slots, asked, ops[0]), ops[1..]);
    }
  }

  /** A slot is given up exactly when its last item goes. */
  lemma FreedWithLastItem(slots: seq<Slot>, asked: seq<int>, op: Op, i: nat)
    requires Inv(slots, asked) && Balanced(slots, asked, op)
    requires i < |slots| && slots[i].name != ""
    ensures var s, s' := slots[i], Step(slots, op)[i];
      s'.name == "" <==> Items(s, asked[i]) > 0 && Items(s', Asked(slots, asked, op)[i]) == 0
  {
    hide RouteStep, FromStep, LocalStep, Items;
    assert Exact(slots[i], asked[i]);
    match op
    case AddRoute(iface, dest, gateway, ok) =>
      var (claimed, k) := Claim(slots, iface);
      if k == i { RouteStepExact(claimed[k], asked[k], true, Route(dest, gateway, iface), ok); }
    case RemoveRoute(iface, dest, gateway) =>
      var k := Find(slots, iface);
      if k == i { RouteStepExact(slots[k], asked[k], false, Route(dest, gateway, iface), false); }
    case FromRule(index, add, addr, ok) =>
      if index == i { FromStepExact(slots[index], asked[index], add, addr, ok); }
    case LocalRoute(index, add, local, ok) =>
      if index == i { LocalFreed(slots[index], asked[index], add, local, ok); }
    case UseMark(iface) =>
  }

  lemma LocalFreed(s: Slot, asked: int, add: bool, l: Local, ok: bool)
    requires Exact(s, asked) && s.name != "" && (!add ==> asked > 0)
    ensures LocalStep(s, add, l, ok).0.name == "" <==>
      Items(s, asked) > 0 && Items(LocalStep(s, add, l, ok).0, asked + if add then 1 else -1) == 0
  {
  }

  /** A failed first route keeps the slot: it stays claimed with nothing in it. */
  lemma FailedRouteKeepsSlot(slots: seq<Slot>, iface: string, dest: string, gateway: string)
    requires Find(slots, iface) < 0 <= Find(slots, "")
    ensures var after := Step(slots, AddRoute(iface, dest, gateway, false));
      var f := Find(slots, ""); after == slots[f := slots[f].(name := Stored(iface))]
  {
  }

  // ---- One slot per interface ------------------------------------------------------------

  ghost predicate OneSlotEach(slots: seq<Slot>) {
    forall i, j | 0 <= i < j < |slots| :: slots[i].name != "" ==> slots[i].name != slots[j].name
  }

  ghost predicate ShortName(op: Op) { (op.AddRoute? || op.UseMark?) ==> |op.iface| <= 16 }

  lemma ClaimKeepsOneSlotEach(slots: seq<Slot>, iface: string)
    requires OneSlotEach(slots) && |iface| <= IFNAMSIZ
    ensures OneSlotEach(Claim(slots, iface).0)
  {
  }

  /** A step other than claiming keeps each slot's name or gives it up. */
  lemma ChangedSlotKeepsOneSlotEach(slots: seq<Slot>, k: nat, s: Slot)
    requires OneSlotEach(slots) && k < |slots| && (s.name == slots[k].name || s.name == "")
    ensures OneSlotEach(slots[k := s])
  {
  }

  lemma StepKeepsOneSlotEach(slots: seq<Slot>, op: Op)
    requires OneSlotEach(slots) && ShortName(op)
    ensures OneSlotEach(Step(slots, op))
  {
    hide OneSlotEach, Claim, Find;
    match op
    case AddRoute(iface, dest, gateway, ok) =>
      ClaimKeepsOneSlotEach(slots, iface);
      var (claimed, k) := Claim(slots, iface);
      if k >= 0 { ChangedSlotKeepsOneSlotEach(claimed, k, Step(slots, op)[k]); }
    case RemoveRoute(iface, dest, gateway) =>
      var k := Find(slots, iface);
      if k >= 0 { ChangedSlotKeepsOneSlotEach(slots, k, Step(slots, op)[k]); }
    case FromRule(index, add, addr, ok) =>
      if index < |slots| { ChangedSlotKeepsOneSlotEach(slots, index, Step(slots, op)[index]); }
    case LocalRoute(index, add, local, ok) =>
      if index < |slots| { ChangedSlotKeepsOneSlotEach(slots, index, Step(slots, op)[index]); }
    case UseMark(iface) => ClaimKeepsOneSlotEach(slots, iface);
  }

  lemma {:induction false} RunKeepsOneSlotEach(slots: seq<Slot>, ops: seq<Op>)
    requires OneSlotEach(slots) && forall op | op in ops :: ShortName(op)
    ensures OneSlotEach(Run(slots, ops))
    decreases ops
  {
    if ops != [] {
      StepKeepsOneSlotEach(slots, ops[0]);
      RunKeepsOneSlotEach(Step(slots, ops[0]), ops[1..]);
    }
  }

  lemma LongNameIsNew(slots: seq<Slot>, iface: string)
    requires |iface| > IFNAMSIZ && forall s | s in slots :: |s.name| <= IFNAMSIZ
    requires Find(slots, "") >= 0
    ensures Claim(slots, iface) == (slots[Find(slots, "") := slots[Find(slots, "")].(name := Stored(iface))], Find(slots, ""))
  {
    assert forall i | 0 <= i < |slots| :: slots[i] in slots;
  }

  /** A longer name is cut off when stored, never found again, and takes another slot every time. */
  lemma LongNameTakesTwoSlots(slots: seq<Slot>, iface: string)
    requires |iface| > 16 && forall s | s in slots :: |s.name| <= 16
    requires Find(slots, "") >= 0 && Find(slots[Find(slots, "") + 1..], "") >= 0
    ensures !OneSlotEach(Claim(Claim(slots, iface).0, iface).0)
  {
    hide Claim;
    LongNameIsNew(slots, iface);
    var once, f := Claim(slots, iface).0, Find(slots, "");
    var g := f + 1 + Find(slots[f + 1..], "");
    assert once[g].name == "";
    LongNameIsNew(once, iface);
    var twice, h := Claim(once, iface).0, Find(once, "");
    assert h != f && twice[f].name == twice[h].name == Stored(iface) != "";
  }

  /** A set after a command that adds or removes one item. */
  function Changed<T(==)>(s: set<T>, succeeded: bool, add: bool, x: T): set<T> {
    if !succeeded then s else if add then s + {x} else s - {x}
  }

  // ---- A controller ----------------------------------------------------------------------

  class SecondaryTableController {
    var slots: seq<Slot>

    ghost predicate Valid() reads this { |slots| == INTERFACES_TRACKED }

    constructor ()
      ensures Valid() && slots == seq(10, _ => FREE) && Inv(slots, seq(10, _ => 0))
    {
      slots := seq(INTERFACES_TRACKED, _ => FREE);
    }

    method FindTableNumber(iface: string) returns (k: int)
      requires Valid()
      ensures k == Find(slots, iface)
    {
      for i := 0 to INTERFACES_TRACKED
        invariant forall j | 0 <= j < i :: slots[j].name != iface
      {
        if slots[i].name == iface {
          return i;
        }
      }
      k := -1;
    }

    method ModifyRuleCount(i: nat, add: bool)
      requires Valid() && i < |slots|
      modifies this
      ensures slots == old(slots)[i := if add then Up(old(slots[i])) else Down(old(slots[i]))]
    {
      var n := slots[i].count;
      if add {
        slots := slots[i := slots[i].(count := n + 1)];
      } else {
        slots := slots[i := slots[i].(count := n - 1)];
        if n - 1 < 1 {
          slots := slots[i := slots[i].(count := 0, name := "")];
        }
      }
    }

    method ModifyRoute(i: nat, add: bool, r: Route, ok: bool) returns (rc: int)
      requires Valid() && i < |slots|
      modifies this
      ensures slots == old(slots)[i := RouteStep(old(slots[i]), add, r, ok).0]
      ensures rc == if RouteStep(old(slots[i]), add, r, ok).1 then 0 else -1
      ensures rc == 0 <==> if add then ok && r !in old(slots[i]).routes && r.dev != "" else r in old(slots[i]).routes
      ensures slots[i].routes == Changed(old(slots[i]).routes, rc == 0, add, r)
      ensures slots[i].locals == old(slots[i]).locals && slots[i].rules == old(slots[i]).rules
    {
      var there := slots[i].routes;
      if add {
        if !ok || r in there || r.dev == "" { return -1; }
        slots := slots[i := slots[i].(routes := there + {r})];
      } else {
        if r !in there { return -1; }
        slots := slots[i := slots[i].(routes := there - {r})];
      }
      ModifyRuleCount(i, add);
      ModifyRuleCount(i, add);
      return 0;
    }

    method AddRoute(iface: string, dest: string, gateway: string, ok: bool) returns (rc: int)
      requires Valid()
      modifies this
      ensures Valid() && slots == Step(old(slots), Op.AddRoute(iface, dest, gateway, ok))
      ensures rc == 0 <==>
        (ok && iface != "" && Claim(old(slots), iface).1 >= 0 && Route(dest, gateway, iface) !in old(slots[Claim(slots, iface).1]).routes)
      ensures rc == 0 && |iface| <= IFNAMSIZ ==>
        var k := Find(slots, iface);
        k >= 0 && slots[k].routes == old(slots[k]).routes + {Route(dest, gateway, iface)}
      ensures forall j | 0 <= j < |slots| :: slots[j].locals == old(slots[j]).locals && slots[j].rules == old(slots[j]).rules
      ensures rc != 0 ==> forall j | 0 <= j < |slots| :: slots[j].routes == old(slots[j]).routes
    {
      hide RouteStep, Find;
      var k := ClaimTable(iface);
      if k == -1 { return -1; }
      ghost var claimed := slots;
      rc := ModifyRoute(k, true, Route(dest, gateway, iface), ok);
      RouteKeepsName(claimed[k], Route(dest, gateway, iface), ok);
      if |iface| <= IFNAMSIZ { ClaimFinds(old(slots), iface, claimed, k, slots[k]); }
    }

    /** The slot of the interface, or a free one given to it. */
    method ClaimTable(iface: string) returns (k: int)
      requires Valid()
      modifies this
      ensures Valid() && (slots, k) == Claim(old(slots), iface)
      ensures forall j | 0 <= j < |slots| :: slots[j] == old(slots[j]).(name := slots[j].name)
    {
      k := FindTableNumber(iface);
      if k == -1 {
        k := FindTableNumber("");
        if k == -1 { return; }
        slots := slots[k := slots[k].(name := Stored(iface))];
      }
    }

    method RemoveRoute(iface: string, dest: string, gateway: string) returns (rc: int)
      requires Valid()
      modifies this
      ensures Valid() && slots == Step(old(slots), Op.RemoveRoute(iface, dest, gateway))
      ensures rc == 0 <==> (Find(old(slots), iface) >= 0 && Route(dest, gateway, iface) in old(slots[Find(slots, iface)]).routes)
      ensures rc == 0 ==> var k := Find(old(slots), iface); slots[k].routes == old(slots)[k].routes - {Route(dest, gateway, iface)}
      ensures forall j | 0 <= j < |slots| :: slots[j].locals == old(slots[j]).locals && slots[j].rules == old(slots[j]).rules
    {
      var k := FindTableNumber(iface);
      if k == -1 { return -1; }
      rc := ModifyRoute(k, false, Route(dest, gateway, iface), false);
    }

    method VerifyTableIndex(i: int) returns (rc: int)
      ensures rc == 0 <==> 0 <= i < |slots| && slots[i].name != ""
    {
      if i < 0 || i >= |slots| || slots[i].name == "" { rc := -1; } else { rc := 0; }
    }

    method ModifyFromRule(i: int, add: bool, addr: string, ok: bool) returns (rc: int)
      requires Valid()
      modifies this
      ensures Valid()
      ensures !(0 <= i < |slots|) ==> slots == old(slots) && rc != 0
      ensures 0 <= i < |slots| ==> slots == old(slots)[i := FromStep(old(slots[i]), add, addr, ok).0]
      ensures 0 <= i < |slots| ==> (rc == 0 <==> FromStep(old(slots[i]), add, addr, ok).1)
      ensures 0 <= i < |slots| && old(slots[i]).name != "" ==> (rc == 0 <==> if add then ok else addr in old(slots[i]).rules)
      ensures 0 <= i < |slots| && rc != 0 ==> slots[i].rules == old(slots[i]).rules
      ensures rc == 0 && add ==> slots[i].rules == old(slots[i]).rules + multiset{addr}
      ensures rc == 0 && !add ==> slots[i].rules == old(slots[i]).rules - multiset{addr}
      ensures 0 <= i < |slots| ==> slots[i].routes == old(slots[i]).routes && slots[i].locals == old(slots[i]).locals
    {
      rc := VerifyTableIndex(i);
      if rc != 0 { return -1; }
      var there := slots[i].rules;
      if add {
        if !ok { return -1; }
        slots := slots[i := slots[i].(rules := there + multiset{addr})];
      } else {
        if addr !in there { return -1; }
        slots := slots[i := slots[i].(rules := there - multiset{addr})];
      }
      ModifyRuleCount(i, add);
      return 0;
    }

    method ModifyLocalRoute(i: int, add: bool, l: Local, ok: bool) returns (rc: int)
      requires Valid()
      modifies this
      ensures Valid()
      ensures !(0 <= i < |slots|) ==> slots == old(slots) && rc != 0
      ensures 0 <= i < |slots| ==> slots == old(slots)[i := LocalStep(old(slots[i]), add, l, ok).0]
      ensures 0 <= i < |slots| ==> (rc == 0 <==> LocalStep(old(slots[i]), add, l, ok).1)
      ensures 0 <= i < |slots| && old(slots[i]).name != "" ==>
        (rc == 0 <==> if add then ok && l !in old(slots[i]).locals else l in old(slots[i]).locals)
      ensures 0 <= i < |slots| ==> slots[i].locals == Changed(old(slots[i]).locals, rc == 0, add, l)
      ensures 0 <= i < |slots| ==> slots[i].routes == old(slots[i]).routes && slots[i].rules == old(slots[i]).rules
    {
      rc := VerifyTableIndex(i);
      if rc != 0 { return -1; }
      ModifyRuleCount(i, add);
      var there := slots[i].locals;
      if add {
        if !ok || l in there { return -1; }
        slots := slots[i := slots[i].(locals := there + {l})];
      } else {
        if l !in there { return -1; }
        slots := slots[i := slots[i].(locals := there - {l})];
      }
    }
  }
}
