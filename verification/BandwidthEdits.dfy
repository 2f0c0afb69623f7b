/**
 * The bandwidth requests as changes of netd's lists, and how the bandwidth chains follow them:
 * what each insertion and deletion of a rule does to a chain that is laid out for the lists.
 */
module BandwidthEdits {
  import opened Util
  import opened Iptables
  import opened BandwidthLayout

  const MAX_IFACENAME_LEN := 64

  // ---- How the lists are meant to change -------------------------------------------------

  function WithShared(c: Config, iface: string, bytes: int): Config {
    c.(shared := if iface in c.shared then c.shared else [iface] + c.shared, sharedBytes := bytes)
  }

  function WithoutShared(c: Config, iface: string): Config {
    var rest := RemoveFirst(c.shared, iface);
    if rest == [] then c.(shared := [], sharedBytes := 0, sharedAlert := 0) else c.(shared := rest)
  }

  function IndexOf(own: seq<QuotaInfo>, iface: string): (k: nat)
    ensures k <= |own| && (k < |own| <==> HasQuota(own, iface))
    ensures k < |own| ==> own[k].iface == iface
  {
    if own == [] then 0 else if own[0].iface == iface then 0 else 1 + IndexOf(own[1..], iface)
  }

  function WithQuota(c: Config, iface: string, bytes: int): Config {
    var k := IndexOf(c.own, iface);
    c.(own := if k < |c.own| then c.own[k := c.own[k].(quota := bytes)] else [QuotaInfo(iface, bytes, 0)] + c.own)
  }

  function WithoutQuota(c: Config, iface: string): Config {
    var k := IndexOf(c.own, iface);
    if k < |c.own| then c.(own := c.own[..k] + c.own[k + 1..]) else c
  }

  function AlertOf(c: Config, iface: string): int {
    var k := IndexOf(c.own, iface);
    if k < |c.own| then c.own[k].alert else 0
  }

  function WithAlert(c: Config, iface: string, bytes: int): Config {
    var k := IndexOf(c.own, iface);
    if k < |c.own| then c.(own := c.own[k := c.own[k].(alert := bytes)]) else c
  }

  /**
   * The uid list after adding (or removing) `uids` one by one. It stops with `false` at the first
   * uid already present (missing), and after the first change when the chain does not exist.
   */
  function SpecialApps(list: seq<int>, uids: seq<int>, add: bool, live: bool): (seq<int>, bool)
    decreases uids
  {
    if uids == [] then (list, true)
    else if (uids[0] in list) == add then (list, false)
    else
      var list' := if add then [uids[0]] + list else RemoveFirst(list, uids[0]);
      if live then SpecialApps(list', uids[1..], add, live) else (list', false)
  }

  function WithApps(c: Config, nice: bool, list: seq<int>): Config {
    if nice then c.(nice := list) else c.(naughty := list)
  }

  function Values(appUids: seq<Option<int>>): seq<int> {
    if appUids == [] then []
    else (if appUids[0].Some? then [appUids[0].value] else []) + Values(appUids[1..])
  }

  /** What a completed add or remove means for the list, and when one completes. */
  lemma {:induction false} SpecialAppsMeaning(list: seq<int>, uids: seq<int>, add: bool)
    requires NoDups(list)
    ensures NoDups(SpecialApps(list, uids, add, true).0)
    ensures SpecialApps(list, uids, add, true).1 <==> NoDups(uids) && forall u :: u in uids ==> (u in list <==> !add)
    ensures SpecialApps(list, uids, add, true).1 ==>
      forall u :: u in SpecialApps(list, uids, add, true).0 <==> if add then u in list || u in uids else u in list && u !in uids
    decreases uids
  {
    if uids == [] {
      assert NoDups(uids);
    } else if (uids[0] in list) != add {
      var list' := if add then [uids[0]] + list else RemoveFirst(list, uids[0]);
      RemoveFirstNoDups(list, uids[0]);
      assert NoDups(list');
      SpecialAppsMeaning(list', uids[1..], add);
      assert uids == [uids[0]] + uids[1..];
      assert NoDups(uids) <==> NoDups(uids[1..]) && uids[0] !in uids[1..];
    } else {
      assert !SpecialApps(list, uids, add, true).1;
      var u := uids[0];
      assert u in uids && !(u in list <==> !add);
    }
  }

  // ---- How the rules follow --------------------------------------------------------------

  lemma {:induction false} HopRuleIn(dir: Direction, hops: seq<Hop>, h: Hop)
    ensures HopRule(dir, h) in HopRules(dir, hops) <==> h in hops
  {
    if hops != [] {
      HopRuleIn(dir, hops[1..], h);
      assert h in hops <==> h == hops[0] || h in hops[1..];
    }
  }

  lemma {:induction false} HopRulesRemove(dir: Direction, hops: seq<Hop>, h: Hop)
    ensures RemoveFirst(HopRules(dir, hops), HopRule(dir, h)) == HopRules(dir, RemoveFirst(hops, h))
  {
    if hops != [] {
      HopRulesRemove(dir, hops[1..], h);
    }
  }

  lemma TopRemove(dir: Direction, alert: bool, hops: seq<Hop>, h: Hop)
    ensures HopRule(dir, h) in TopRules(dir, alert, hops) <==> h in hops
    ensures RemoveFirst(TopRules(dir, alert, hops), HopRule(dir, h)) == TopRules(dir, alert, RemoveFirst(hops, h))
  {
    var r, hs := HopRule(dir, h), HopRules(dir, hops);
    HopRuleIn(dir, hops, h);
    HopRulesRemove(dir, hops, h);
    RemoveFirstSkips(When(alert, GLOBAL_ALERT), hs + [TRACK], r);
    if h in hops {
      RemoveFirstInside(hs, [TRACK], r);
    } else {
      RemoveFirstAbsent(hs + [TRACK], r);
      RemoveFirstAbsent(hops, h);
    }
  }

  /** A jump put first, wherever it stood before. */
  function Hooked(hops: seq<Hop>, h: Hop): seq<Hop> { [h] + RemoveFirst(hops, h) }

  lemma HookedIs(hops: seq<Hop>, h: Hop)
    ensures h !in hops ==> Hooked(hops, h) == [h] + hops
    ensures RemoveFirst(Hooked(hops, h), h) == RemoveFirst(hops, h)
  {
    if h !in hops { RemoveFirstAbsent(hops, h); }
  }

  lemma TopInsert(dir: Direction, alert: bool, hops: seq<Hop>, h: Hop)
    ensures var rules, k := TopRules(dir, alert, hops), if alert then 1 else 0;
      k < |rules| && rules[..k] + [HopRule(dir, h)] + rules[k..] == TopRules(dir, alert, [h] + hops)
  {
    assert ([h] + hops)[1..] == hops;
  }

  lemma TopAlert(dir: Direction, hops: seq<Hop>)
    ensures TopRules(dir, true, hops) == [GLOBAL_ALERT] + TopRules(dir, false, hops)
    ensures RemoveFirst(TopRules(dir, true, hops), GLOBAL_ALERT) == TopRules(dir, false, hops)
  {
  }

  lemma {:induction false} UidRuleIn(uids: seq<int>, target: Target, uid: int)
    ensures UidRule(uid, target) in UidRules(uids, target) <==> uid in uids
  {
    if uids != [] {
      UidRuleIn(uids[1..], target, uid);
      assert uid in uids <==> uid == uids[0] || uid in uids[1..];
    }
  }

  lemma {:induction false} UidRulesRemove(uids: seq<int>, target: Target, uid: int)
    ensures RemoveFirst(UidRules(uids, target), UidRule(uid, target)) == UidRules(RemoveFirst(uids, uid), target)
  {
    if uids != [] {
      UidRulesRemove(uids[1..], target, uid);
    }
  }

  /** Adding or removing one uid at the head part of a special-app box. */
  lemma BoxEdit(uids: seq<int>, target: Target, tail: seq<Rule>, uid: int)
    ensures var rules := UidRules(uids, target) + tail;
      rules[..0] + [UidRule(uid, target)] + rules[0..] == UidRules([uid] + uids, target) + tail
    ensures uid in uids ==> UidRule(uid, target) in UidRules(uids, target) + tail
    ensures uid in uids ==>
      RemoveFirst(UidRules(uids, target) + tail, UidRule(uid, target)) == UidRules(RemoveFirst(uids, uid), target) + tail
  {
    hide UidRules, RemoveFirst, UidRule;
    UidRulesCons(uids, target, uid);
    Prepended(UidRules(uids, target), tail, UidRule(uid, target));
    if uid in uids {
      UidRuleIn(uids, target, uid);
      UidRulesRemove(uids, target, uid);
      RemoveFirstInside(UidRules(uids, target), tail, UidRule(uid, target));
    }
  }

  lemma UidRulesCons(uids: seq<int>, target: Target, uid: int)
    ensures UidRules([uid] + uids, target) == [UidRule(uid, target)] + UidRules(uids, target)
  {
    assert ([uid] + uids)[1..] == uids;
  }

  lemma Prepended(rules: seq<Rule>, tail: seq<Rule>, r: Rule)
    ensures (rules + tail)[..0] + [r] + (rules + tail)[0..] == [r] + rules + tail
  {
  }

  /** A rule in the uid part of a box is an owner rule, and nothing else. */
  lemma {:induction false} UidRulesAre(uids: seq<int>, target: Target)
    ensures forall r | r in UidRules(uids, target) :: r.on.Owner? && r.target == target
  {
    if uids != [] {
      UidRulesAre(uids[1..], target);
    }
  }

  lemma {:induction false} HopRulesAre(dir: Direction, hops: seq<Hop>)
    ensures forall r | r in HopRules(dir, hops) :: exists h :: h in hops && r == HopRule(dir, h)
  {
    if hops != [] {
      HopRulesAre(dir, hops[1..]);
    }
  }

  /** The jump list after an interface joins or leaves. */
  lemma HopsJoin(hops: seq<Hop>, shared: seq<string>, own: seq<QuotaInfo>, iface: string)
    requires GoodHops(hops, shared, own) && iface !in shared && GoodQuotas(own)
    ensures GoodHops([Hop(iface, Costly(SHARED))] + hops, [iface] + shared, own)
  {
    NoDupsCons(Hop(iface, Costly(SHARED)), hops);
  }

  lemma HopsLeave(hops: seq<Hop>, shared: seq<string>, own: seq<QuotaInfo>, iface: string)
    requires GoodHops(hops, shared, own) && NoDups(shared) && GoodQuotas(own)
    ensures GoodHops(RemoveFirst(hops, Hop(iface, Costly(SHARED))), RemoveFirst(shared, iface), own)
  {
    RemoveFirstNoDups(hops, Hop(iface, Costly(SHARED)));
    RemoveFirstNoDups(shared, iface);
  }

  lemma HopsJoinOwn(hops: seq<Hop>, shared: seq<string>, own: seq<QuotaInfo>, q: QuotaInfo)
    requires GoodHops(hops, shared, own) && GoodQuotas(own) && !HasQuota(own, q.iface) && q.iface != SHARED
    ensures GoodQuotas([q] + own)
    ensures GoodHops([Hop(q.iface, Costly(q.iface))] + hops, shared, [q] + own)
  {
    assert ([q] + own)[1..] == own;
    NoDupsCons(q.iface, Names(own));
    NoDupsCons(Hop(q.iface, Costly(q.iface)), hops);
  }

  lemma {:induction false} NamesApart(own: seq<QuotaInfo>, i: nat, j: nat)
    requires NoDups(Names(own)) && i < j < |own|
    ensures own[i].iface != own[j].iface
  {
    var rest := own[1..];
    if i == 0 {
      EntryNamed(rest, rest[j - 1]);
    } else {
      NamesApart(rest, i - 1, j - 1);
    }
  }

  lemma NamesCons(q: QuotaInfo, own: seq<QuotaInfo>)
    ensures Names([q] + own) == [q.iface] + Names(own)
  {
    assert ([q] + own)[1..] == own;
  }

  lemma {:induction false} NamesErase(own: seq<QuotaInfo>, k: nat)
    requires k < |own| && NoDups(Names(own))
    ensures Names(own[..k] + own[k + 1..]) == RemoveFirst(Names(own), own[k].iface)
  {
    hide Names, RemoveFirst, NoDups;
    var q, rest := own[0], own[1..];
    assert own == [q] + rest;
    NamesCons(q, rest);
    RemoveFirstCons(q.iface, Names(rest), own[k].iface);
    if k == 0 {
      assert own[..0] + own[1..] == rest;
    } else {
      var left := rest[..k - 1] + rest[k..];
      assert own[..k] + own[k + 1..] == [q] + left;
      NamesCons(q, left);
      NoDupsCons(q.iface, Names(rest));
      NamesErase(rest, k - 1);
      NamesApart(own, 0, k);
    }
  }

  lemma EraseMembers(own: seq<QuotaInfo>, k: nat)
    requires k < |own| && NoDups(Names(own))
    ensures forall r | r in own[..k] + own[k + 1..] :: r in own && r.iface != own[k].iface
  {
    var left := own[..k] + own[k + 1..];
    forall r | r in left ensures r in own && r.iface != own[k].iface {
      var n :| 0 <= n < |left| && left[n] == r;
      if n < k { NamesApart(own, n, k); } else { NamesApart(own, k, n + 1); }
    }
  }

  lemma HopsLeaveOwn(hops: seq<Hop>, shared: seq<string>, own: seq<QuotaInfo>, k: nat)
    requires GoodHops(hops, shared, own) && GoodQuotas(own) && k < |own|
    ensures var own' := own[..k] + own[k + 1..]; GoodQuotas(own') && (forall r | r in own' :: r in own && r.iface != own[k].iface)
    ensures GoodHops(RemoveFirst(hops, Hop(own[k].iface, Costly(own[k].iface))), shared, own[..k] + own[k + 1..])
  {
    NamesErase(own, k);
    EraseMembers(own, k);
    RemoveFirstNoDups(hops, Hop(own[k].iface, Costly(own[k].iface)));
    RemoveFirstNoDups(Names(own), own[k].iface);
  }

  /** Replacing one entry by another for the same interface. */
  lemma {:induction false} QuotaReplaced(own: seq<QuotaInfo>, k: nat, q: QuotaInfo)
    requires NoDups(Names(own)) && k < |own| && own[k].iface == q.iface
    ensures Names(own[k := q]) == Names(own)
    ensures forall r | r in own[k := q] :: r == q || (r in own && r.iface != q.iface)
  {
    var rest := own[1..];
    if k == 0 {
      assert own[0 := q] == [q] + rest;
      forall r | r in rest ensures r.iface != q.iface {
        EntryNamed(rest, r);
      }
    } else {
      assert own[k := q] == [own[0]] + rest[k - 1 := q];
      QuotaReplaced(rest, k - 1, q);
      EntryNamed(rest, own[k]);
    }
  }

  /** The requests netd accepts between enable and disable. */
  datatype Request =
    | SharedQuota(iface: string, bytes: int)
    | RemoveShared(iface: string)
    | Quota(iface: string, bytes: int)
    | RemoveQuota(iface: string)
    | GlobalAlert(bytes: int)
    | DropGlobalAlert
    | TetherUp
    | TetherDown
    | SharedAlert(bytes: int)
    | DropSharedAlert
    | Alert(iface: string, bytes: int)
    | DropAlert(iface: string)
    | HappyOn
    | HappyOff
    | Apps(uids: seq<Option<int>>, nice: bool, add: bool)
  {
    /** A quota on an interface called "shared" would take over the shared chain. */
    predicate Admissible() {
      !(Quota? && iface == SHARED && bytes != 0 && bytes != -1)
    }
  }

  predicate ShortName(iface: string) { |iface| < MAX_IFACENAME_LEN }

  /** What a request does to the lists. `live` is whether bw_happy_box exists. */
  function After(c: Config, live: bool, req: Request): Config {
    match req
    case SharedQuota(i, b) =>
      if b == 0 || !ShortName(i) then c
      else if b != -1 then WithShared(c, i, b)
      else if i in c.shared then WithoutShared(c, i) else c
    case RemoveShared(i) => if ShortName(i) && i in c.shared then WithoutShared(c, i) else c
    case Quota(i, b) =>
      if b == 0 || !ShortName(i) then c else if b != -1 then WithQuota(c, i, b) else WithoutQuota(c, i)
    case RemoveQuota(i) => if ShortName(i) then WithoutQuota(c, i) else c
    case GlobalAlert(b) => if b != 0 then c.(globalAlert := b) else c
    case DropGlobalAlert => c.(globalAlert := 0)
    case TetherUp => c.(tethers := c.tethers + 1)
    case TetherDown => if c.tethers > 0 then c.(tethers := c.tethers - 1) else c
    case SharedAlert(b) => if c.shared != [] && b != 0 then c.(sharedAlert := b) else c
    case DropSharedAlert => c.(sharedAlert := 0)
    case Alert(i, b) => if b != 0 then WithAlert(c, i, b) else c
    case DropAlert(i) => WithAlert(c, i, 0)
    case HappyOn => c.(nice := [], happy := true)
    case HappyOff => c.(nice := [], happy := false)
    case Apps(uids, nice, add) =>
      if None in uids then c
      else WithApps(c, nice, SpecialApps(if nice then c.nice else c.naughty, Values(uids), add, !nice || live).0)
  }

  /** Whether bw_happy_box exists afterwards. */
  function LiveAfter(live: bool, req: Request): bool {
    match req
    case HappyOn => true
    case HappyOff => false
    case _ => live
  }

  /** The values the kernel has for the quota names afterwards. */
  function LimitsAfter(k: map<string, int>, c: Config, req: Request): map<string, int> {
    match req
    case SharedQuota(i, b) =>
      if b == 0 || b == -1 || !ShortName(i) || (c.shared != [] && b == c.sharedBytes) then k else k[SHARED := b]
    case Quota(i, b) => if b == 0 || b == -1 || !ShortName(i) then k else k[i := b]
    case GlobalAlert(b) => if b == 0 then k else k["globalAlert" := b]
    case TetherUp => if c.tethers != 0 || c.globalAlert == 0 then k else k["globalAlert" := c.globalAlert]
    case SharedAlert(b) =>
      if c.shared == [] || b == 0 then k else k["sharedAlert" := if c.sharedAlert != 0 then c.sharedAlert else b]
    case Alert(i, b) =>
      if b == 0 || !HasQuota(c.own, i) then k else k[i + "Alert" := if AlertOf(c, i) != 0 then AlertOf(c, i) else b]
    case _ => k
  }

  lemma AlertLimits(k: map<string, int>, c: Config, i: string, b: int)
    ensures LimitsAfter(k, c, Alert(i, b)) ==
      if b == 0 || !HasQuota(c.own, i) then k else k[i + "Alert" := if AlertOf(c, i) != 0 then AlertOf(c, i) else b]
  {
  }

  const FRESH := Config([], 0, 0, [], 0, 0, [], [], false)

  datatype RunState = RunState(c: Config, live: bool, limits: map<string, int>)

  function RunStep(s: RunState, req: Request): RunState {
    RunState(After(s.c, s.live, req), LiveAfter(s.live, req), LimitsAfter(s.limits, s.c, req))
  }

  function RunAll(s: RunState, reqs: seq<Request>): RunState
    decreases |reqs|
  {
    if reqs == [] then s else RunStep(RunAll(s, reqs[..|reqs| - 1]), reqs[|reqs| - 1])
  }

  predicate NamedIn(rules: seq<Rule>, name: string) {
    exists r | r in rules :: r.on == OverQuota(name)
  }

  /** Some rule carries the quota name, so /proc/net/xt_quota/<name> exists. */
  predicate Named(t: Table, name: string) {
    || NamedIn(t.input, name) || NamedIn(t.output, name) || NamedIn(t.forward, name)
    || (exists n | n in t.costly :: NamedIn(t.costly[n], name))
  }

  lemma SharedQuotaRemove(alert: bool)
    ensures QuotaRule(SHARED) in SharedRules(true, alert)
    ensures RemoveFirst(SharedRules(true, alert), QuotaRule(SHARED)) == SharedRules(false, alert)
  {
  }

  lemma SharedAlertRemove(quota: bool)
    ensures SHARED + "Alert" == "sharedAlert"
    ensures SHARED_ALERT in SharedRules(quota, true)
    ensures RemoveFirst(SharedRules(quota, true), SHARED_ALERT) == SharedRules(quota, false)
    ensures SharedRules(quota, false) + [SHARED_ALERT] == SharedRules(quota, true)
  {
    var front := When(quota, QuotaRule(SHARED)) + [TO_PENALTY];
    assert SharedRules(quota, true) == front + [SHARED_ALERT];
    RemoveFirstSkips(front, [SHARED_ALERT], SHARED_ALERT);
    assert SharedRules(quota, false) == front + [];
  }

  lemma SharedAlertEdits(t: Table, quota: bool)
    requires SHARED in t.costly
    ensures SHARED + "Alert" == "sharedAlert"
    ensures t.costly[SHARED] == SharedRules(quota, true) ==> Named(t, "sharedAlert")
    ensures t.costly[SHARED] == SharedRules(quota, true) ==> Accepts(t, Delete(Costly(SHARED), SHARED_ALERT))
    ensures t.costly[SHARED] == SharedRules(quota, true) ==>
      Exec(t, Delete(Costly(SHARED), SHARED_ALERT)) == Put(t, Costly(SHARED), SharedRules(quota, false))
    ensures SharedRules(quota, false) + [SHARED_ALERT] == SharedRules(quota, true)
  {
    hide SharedRules;
    SharedAlertRemove(quota);
    if t.costly[SHARED] == SharedRules(quota, true) {
      assert SHARED_ALERT in t.costly[SHARED];
      assert NamedIn(t.costly[SHARED], "sharedAlert");
    }
  }

  lemma SharedAlertSet(t: Table, c: Config, hops: seq<Hop>, bytes: int, t': Table)
    requires Layout(t, c, hops) && c.shared != []
    requires t' == Put(t, Costly(SHARED), SharedRules(true, bytes != 0))
    ensures Layout(t', c.(sharedAlert := bytes), hops)
  {
    hide TopRules, PenaltyRules, HappyRules, OwnRules, GoodHops;
  }

  lemma SharedFacts(t: Table, c: Config, hops: seq<Hop>, iface: string)
    requires Layout(t, c, hops)
    ensures Hop(iface, Costly(SHARED)) in hops <==> iface in c.shared
    ensures GoodTop(t, c, hops)
    ensures SHARED in t.costly && t.costly[SHARED] == SharedRules(c.shared != [], c.sharedAlert != 0)
    ensures (c.sharedBytes != 0 <==> c.shared != []) && (c.sharedAlert != 0 ==> c.shared != [])
  {
  }

  lemma SharedInUse(t: Table, c: Config, hops: seq<Hop>, bytes: int)
    requires Layout(t, c, hops) && c.shared != [] && bytes != 0
    ensures Named(t, SHARED) && Layout(t, c.(sharedBytes := bytes), hops)
  {
    hide TopRules, PenaltyRules, HappyRules, OwnRules, GoodHops;
    assert t.costly[SHARED][0] == QuotaRule(SHARED);
    assert NamedIn(t.costly[SHARED], SHARED);
  }

  lemma SharedJoined(t: Table, c: Config, hops: seq<Hop>, iface: string, bytes: int, t': Table)
    requires Layout(t, c, hops) && iface !in c.shared && bytes != 0
    requires GoodTop(t', c, [Hop(iface, Costly(SHARED))] + hops)
    requires SHARED in t'.costly && t'.costly[SHARED] == SharedRules(true, c.sharedAlert != 0)
    requires t' == t.(input := t'.input, output := t'.output, costly := t.costly[SHARED := t'.costly[SHARED]])
    ensures Layout(t', WithShared(c, iface, bytes), [Hop(iface, Costly(SHARED))] + hops)
  {
    assert NoCostlyJump(SharedRules(true, c.sharedAlert != 0));
    HopsJoin(hops, c.shared, c.own, iface);
    NoDupsCons(iface, c.shared);
    hide TopRules, PenaltyRules, HappyRules, OwnRules, SharedRules, GoodHops, NoCostlyJump;
  }

  lemma SharedLeft(t: Table, c: Config, hops: seq<Hop>, iface: string, t': Table)
    requires Layout(t, c, hops) && iface in c.shared
    requires GoodTop(t', c, RemoveFirst(hops, Hop(iface, Costly(SHARED))))
    requires SHARED in t'.costly
    requires t'.costly[SHARED] ==
      if RemoveFirst(c.shared, iface) == [] then SharedRules(false, false) else SharedRules(true, c.sharedAlert != 0)
    requires t' == t.(input := t'.input, output := t'.output, costly := t.costly[SHARED := t'.costly[SHARED]])
    ensures Layout(t', WithoutShared(c, iface), RemoveFirst(hops, Hop(iface, Costly(SHARED))))
  {
    hide TopRules, PenaltyRules, HappyRules, OwnRules, SharedRules, GoodHops, NoCostlyJump, GoodTop, RemoveFirst, NoDups;
    SharedJumpsNowhere();
    HopsLeave(hops, c.shared, c.own, iface);
    RemoveFirstNoDups(c.shared, iface);
    TopIgnoresLists(t', c, RemoveFirst(hops, Hop(iface, Costly(SHARED))), WithoutShared(c, iface));
  }

  lemma SharedJumpsNowhere()
    ensures forall alert :: NoCostlyJump(SharedRules(true, alert)) && NoCostlyJump(SharedRules(false, alert))
  {
  }

  lemma TopIgnoresCostly(t: Table, c: Config, hops: seq<Hop>, t': Table)
    requires GoodTop(t, c, hops) && t' == t.(costly := t'.costly)
    ensures GoodTop(t', c, hops)
  {
  }

  lemma TopTargets(dir: Direction, alert: bool, hops: seq<Hop>, c: Chain)
    requires forall g | g in hops :: g.chain != c
    ensures !Mentions(TopRules(dir, alert, hops), c)
  {
    HopRulesAre(dir, hops);
  }

  /** Once its jumps are gone nothing refers to an interface's own chain. */
  lemma NoLongerReferenced(t: Table, t': Table, c: Config, hops: seq<Hop>, h: Hop)
    requires Layout(t, c, hops) && h in hops && h.chain == Costly(h.iface) && h.iface != SHARED
    requires GoodTop(t', c, RemoveFirst(hops, h))
    requires t' == t.(input := t'.input, output := t'.output)
    ensures h.iface in t'.costly && !Referenced(Put(t', h.chain, []), h.chain)
  {
    hide TopRules, OwnRules, SharedRules, PenaltyRules, HappyRules, HasQuota;
    OnlyOneHop(c, hops, h);
    var left := RemoveFirst(hops, h);
    TopTargets(Inbound, c.globalAlert != 0, left, h.chain);
    TopTargets(Outbound, c.globalAlert != 0, left, h.chain);
    BoxTargets(c, h.chain);
  }

  lemma OnlyOneHop(c: Config, hops: seq<Hop>, h: Hop)
    requires Lists(c, hops) && h in hops && h.chain == Costly(h.iface) && h.iface != SHARED
    ensures forall g | g in RemoveFirst(hops, h) :: g.chain != h.chain
    ensures exists q :: q in c.own && q.iface == h.iface
  {
    RemoveFirstNoDups(hops, h);
    var q := NamedEntry(c.own, h.iface);
  }

  lemma BoxTargets(c: Config, chain: Chain)
    requires chain.Costly?
    ensures !Mentions(PenaltyRules(c.naughty, c.happy), chain) && !Mentions(HappyRules(c.nice, c.happy), chain)
  {
    UidRulesAre(c.naughty, Reject);
    UidRulesAre(c.nice, Return);
  }

  // ---- The top chains and the boxes ------------------------------------------------------

  lemma TopFacts(t: Table, c: Config, hops: seq<Hop>)
    requires Layout(t, c, hops)
    ensures GoodTop(t, c, hops) && c.tethers >= 0
    ensures c.globalAlert != 0 ==> Named(t, "globalAlert")
  {
    if c.globalAlert != 0 {
      assert t.input[0] == GLOBAL_ALERT;
      assert NamedIn(t.input, "globalAlert");
    }
  }

  lemma TopEdited(t: Table, c: Config, hops: seq<Hop>, c': Config, t': Table)
    requires Layout(t, c, hops) && c' == c.(globalAlert := c'.globalAlert, tethers := c'.tethers) && c'.tethers >= 0
    requires GoodTop(t', c', hops) && t' == t.(input := t'.input, output := t'.output, forward := t'.forward)
    ensures Layout(t', c', hops)
  {
    hide TopRules, PenaltyRules, HappyRules, SharedRules, OwnRules, GoodHops;
  }

  lemma BoxFacts(t: Table, c: Config, hops: seq<Hop>)
    requires Layout(t, c, hops)
    ensures GoodBoxes(t, c) && NoDups(c.naughty) && NoDups(c.nice)
  {
  }

  lemma NoneTwice()
    ensures NoDups<int>([])
  {
  }

  /** The three commands that take the happy box away, on a table in order. */
  lemma HappyTakenDown(t: Table, c: Config, hops: seq<Hop>)
    requires Layout(t, c, hops)
    ensures var t1 := Exec(t, Delete(PenaltyBox, TO_HAPPY));
      var t2 := Exec(t1, Flush(HappyBox));
      var t3 := Exec(t2, DeleteChain(HappyBox));
      t3 == t.(happy := None, penalty := PenaltyRules(c.naughty, false)) && GoodBoxes(t3, c.(nice := [], happy := false))
  {
    hide Layout, PenaltyRules, HappyRules, RemoveFirst;
    BoxFacts(t, c, hops);
    HappyHook(c.naughty, c.happy);
    HappyUnreferenced(t, c, hops);
    var t1 := Exec(t, Delete(PenaltyBox, TO_HAPPY));
    assert t1 == t.(penalty := PenaltyRules(c.naughty, false)) by {
      if TO_HAPPY !in t.penalty { RemoveFirstAbsent(t.penalty, TO_HAPPY); }
    }
    var t2 := Exec(t1, Flush(HappyBox));
    assert t2 == t1.(happy := if t.happy.Some? then Some([]) else None);
  }

  lemma HappyHook(naughty: seq<int>, happy: bool)
    ensures TO_HAPPY in PenaltyRules(naughty, happy) <==> happy
    ensures RemoveFirst(PenaltyRules(naughty, happy), TO_HAPPY) == PenaltyRules(naughty, false)
    ensures PenaltyRules(naughty, false) + [TO_HAPPY] == PenaltyRules(naughty, true)
    ensures HappyRules([], true) == [] + [REJECT_ALL] && HappyRules([], false) == []
  {
    var uids := UidRules(naughty, Reject);
    UidRulesAre(naughty, Reject);
    assert TO_HAPPY !in uids;
    RemoveFirstSkips(uids, When(happy, TO_HAPPY), TO_HAPPY);
  }

  lemma BoxesEdited(t: Table, c: Config, hops: seq<Hop>, naughty: seq<int>, nice: seq<int>, happy: bool, t': Table)
    requires Layout(t, c, hops) && NoDups(naughty) && NoDups(nice)
    requires GoodBoxes(t', c.(naughty := naughty, nice := nice, happy := happy))
    requires t' == t.(penalty := t'.penalty, happy := t'.happy)
    ensures Layout(t', c.(naughty := naughty, nice := nice, happy := happy), hops)
  {
    hide TopRules, PenaltyRules, HappyRules, SharedRules, OwnRules, GoodHops;
  }

  /** With its jump out of the penalty box, nothing refers to the happy box. */
  lemma HappyUnreferenced(t: Table, c: Config, hops: seq<Hop>)
    requires Layout(t, c, hops)
    ensures !Referenced(t.(penalty := PenaltyRules(c.naughty, false), happy := Some([])), HappyBox)
  {
    hide TopRules, PenaltyRules, HappyRules, SharedRules, OwnRules, HasQuota;
    TopTargets(Inbound, c.globalAlert != 0, hops, HappyBox);
    TopTargets(Outbound, c.globalAlert != 0, hops, HappyBox);
    HappyHook(c.naughty, false);
    PenaltyTargets(c.naughty);
  }

  lemma PenaltyTargets(naughty: seq<int>)
    ensures !Mentions(PenaltyRules(naughty, false), HappyBox)
  {
    UidRulesAre(naughty, Reject);
  }

  lemma FreshLayout(t: Table)
    requires t.input == [TRACK] && t.output == [TRACK] && t.forward == [] && t.penalty == []
    requires t.happy.Some? ==> t.happy.value == []
    requires SHARED in t.costly
    requires forall n | n in t.costly :: t.costly[n] == if n == SHARED then [TO_PENALTY] else []
    ensures Layout(t, Config([], 0, 0, [], 0, 0, [], [], false), [])
  {
    assert TopRules(Inbound, false, []) == [TRACK] && TopRules(Outbound, false, []) == [TRACK];
    assert SharedRules(false, false) == [TO_PENALTY];
  }

  // ---- An interface with its own quota ---------------------------------------------------

  lemma OwnFacts(t: Table, c: Config, hops: seq<Hop>, iface: string)
    requires Layout(t, c, hops)
    ensures iface != SHARED ==> (Hop(iface, Costly(iface)) in hops <==> HasQuota(c.own, iface))
    ensures GoodTop(t, c, hops)
    ensures SHARED in t.costly
  {
  }

  lemma OwnEntry(t: Table, c: Config, hops: seq<Hop>, k: nat)
    requires Layout(t, c, hops) && k < |c.own|
    ensures var q := c.own[k]; q.iface in t.costly && t.costly[q.iface] == OwnRules(q) && q.iface != SHARED && Named(t, q.iface)
    ensures c.own[k].alert != 0 ==> Named(t, c.own[k].iface + "Alert")
  {
    hide TopRules, PenaltyRules, HappyRules, SharedRules, GoodHops;
    var q := c.own[k];
    assert q in c.own;
    assert QuotaRule(q.iface) in OwnRules(q);
    assert NamedIn(t.costly[q.iface], q.iface);
    if q.alert != 0 {
      assert AlertRule(q.iface + "Alert") in OwnRules(q);
      assert NamedIn(t.costly[q.iface], q.iface + "Alert");
    }
  }

  lemma OwnQuota(q: QuotaInfo, bytes: int)
    ensures OwnRules(q.(quota := bytes)) == OwnRules(q)
  {
  }

  lemma OwnAlert(q: QuotaInfo, bytes: int)
    ensures bytes != 0 ==> OwnRules(q.(alert := bytes)) == OwnRules(q.(alert := 0)) + [AlertRule(q.iface + "Alert")]
    ensures q.alert != 0 ==> AlertRule(q.iface + "Alert") in OwnRules(q)
    ensures q.alert != 0 ==> RemoveFirst(OwnRules(q), AlertRule(q.iface + "Alert")) == OwnRules(q.(alert := 0))
    ensures q.alert != 0 && bytes != 0 ==> OwnRules(q.(alert := bytes)) == OwnRules(q)
    ensures q.alert == 0 ==> q.(alert := 0) == q
  {
    if q.alert != 0 {
      var front, a := [TO_PENALTY, QuotaRule(q.iface)], AlertRule(q.iface + "Alert");
      assert OwnRules(q) == front + [a];
      RemoveFirstSkips(front, [a], a);
    }
  }

  /** The quota rule goes behind the jump to the penalty box. */
  lemma QuotaAppended(t: Table, iface: string)
    requires iface in t.costly && t.costly[iface] == [TO_PENALTY]
    ensures var cmd := Append(Costly(iface), QuotaRule(iface));
      Accepts(t, cmd) && Exec(t, cmd) == t.(costly := t.costly[iface := [TO_PENALTY, QuotaRule(iface)]])
  {
    assert [TO_PENALTY] + [QuotaRule(iface)] == [TO_PENALTY, QuotaRule(iface)];
  }

  lemma OwnJoined(t: Table, c: Config, hops: seq<Hop>, q: QuotaInfo, t': Table)
    requires Layout(t, c, hops) && !HasQuota(c.own, q.iface) && q.iface != SHARED && q.alert == 0
    requires GoodTop(t', c, [Hop(q.iface, Costly(q.iface))] + hops)
    requires t' == t.(input := t'.input, output := t'.output, costly := t.costly[q.iface := [TO_PENALTY, QuotaRule(q.iface)]])
    ensures Layout(t', c.(own := [q] + c.own), [Hop(q.iface, Costly(q.iface))] + hops)
  {
    hide TopRules, PenaltyRules, HappyRules, SharedRules, GoodHops, HasQuota;
    HopsJoinOwn(hops, c.shared, c.own, q);
    assert OwnRules(q) == [TO_PENALTY, QuotaRule(q.iface)];
    forall r | r in c.own ensures r.iface != q.iface {
      EntryNamed(c.own, r);
    }
  }

  lemma OwnLeft(t: Table, c: Config, hops: seq<Hop>, k: nat, t': Table)
    requires Layout(t, c, hops) && k < |c.own|
    requires GoodTop(t', c, RemoveFirst(hops, Hop(c.own[k].iface, Costly(c.own[k].iface))))
    requires t' == t.(input := t'.input, output := t'.output, costly := t.costly - {c.own[k].iface})
    ensures Layout(t', c.(own := c.own[..k] + c.own[k + 1..]), RemoveFirst(hops, Hop(c.own[k].iface, Costly(c.own[k].iface))))
  {
    hide TopRules, PenaltyRules, HappyRules, SharedRules, OwnRules, GoodHops;
    HopsLeaveOwn(hops, c.shared, c.own, k);
    assert c.own[k] in c.own;
  }

  lemma OwnEdited(t: Table, c: Config, hops: seq<Hop>, k: nat, q: QuotaInfo, t': Table)
    requires Layout(t, c, hops) && k < |c.own| && c.own[k].iface == q.iface
    requires t' == t.(costly := t.costly[q.iface := OwnRules(q)]) || (t' == t && OwnRules(q) == OwnRules(c.own[k]))
    ensures Layout(t', c.(own := c.own[k := q]), hops)
  {
    hide TopRules, PenaltyRules, HappyRules, SharedRules, GoodHops, OwnRules, HasQuota;
    QuotaReplaced(c.own, k, q);
    HopsRenamed(hops, c.shared, c.own, c.own[k := q]);
    OwnNoJump(q);
    assert c.own[k] in c.own;
  }

  lemma OwnNoJump(q: QuotaInfo)
    ensures NoCostlyJump(OwnRules(q))
  {
  }

  lemma HopsRenamed(hops: seq<Hop>, shared: seq<string>, own: seq<QuotaInfo>, own': seq<QuotaInfo>)
    requires GoodHops(hops, shared, own) && Names(own) == Names(own')
    ensures GoodHops(hops, shared, own')
    ensures HasQuota(own, SHARED) == HasQuota(own', SHARED)
  {
  }

  // ---- Taking a jump and a chain away ----------------------------------------------------

  /** The commands of cleanupCostlyIface, refused ones included. */
  function CleanedUp(t: Table, iface: string, unique: bool): Table {
    var h := Hop(iface, Costly(if unique then iface else SHARED));
    var t1 := Exec(t, Delete(Input, HopRule(Inbound, h)));
    var t2 := Exec(t1, Delete(Output, HopRule(Outbound, h)));
    if unique then Exec(Exec(t2, Flush(h.chain)), DeleteChain(h.chain)) else t2
  }

  lemma CleanedUpKeepsHappy(t: Table, iface: string, unique: bool)
    ensures CleanedUp(t, iface, unique).happy == t.happy
  {
  }

  lemma Unhooked(t: Table, c: Config, hops: seq<Hop>, h: Hop)
    requires GoodTop(t, c, hops)
    ensures var t2 := Exec(Exec(t, Delete(Input, HopRule(Inbound, h))), Delete(Output, HopRule(Outbound, h)));
      GoodTop(t2, c, RemoveFirst(hops, h)) && t2 == t.(input := t2.input, output := t2.output)
  {
    hide TopRules, RemoveFirst;
    TopRemove(Inbound, c.globalAlert != 0, hops, h);
    TopRemove(Outbound, c.globalAlert != 0, hops, h);
    if h !in hops { RemoveFirstAbsent(hops, h); }
  }

  lemma CleanedUpTop(t: Table, c: Config, hops: seq<Hop>, iface: string, unique: bool)
    requires GoodTop(t, c, hops)
    ensures GoodTop(CleanedUp(t, iface, unique), c, RemoveFirst(hops, Hop(iface, Costly(if unique then iface else SHARED))))
    ensures unique && Exists(CleanedUp(t, iface, true), Costly(iface)) ==> Get(CleanedUp(t, iface, true), Costly(iface)) == []
  {
    hide TopRules, RemoveFirst;
    Unhooked(t, c, hops, Hop(iface, Costly(if unique then iface else SHARED)));
  }

  /** In a state laid out for the lists every command of the clean-up is accepted. */
  lemma CleanedUpQuietly(t: Table, c: Config, hops: seq<Hop>, iface: string, unique: bool)
    requires Layout(t, c, hops) && (unique ==> iface != SHARED)
    requires Hop(iface, Costly(if unique then iface else SHARED)) in hops
    ensures var h := Hop(iface, Costly(if unique then iface else SHARED));
      var t1 := Exec(t, Delete(Input, HopRule(Inbound, h)));
      var t2 := Exec(t1, Delete(Output, HopRule(Outbound, h)));
      var t3 := Exec(t2, Flush(h.chain));
      && Accepts(t, Delete(Input, HopRule(Inbound, h))) && Accepts(t1, Delete(Output, HopRule(Outbound, h)))
      && (unique ==> Accepts(t2, Flush(h.chain)) && Accepts(t3, DeleteChain(h.chain)))
    ensures var t' := CleanedUp(t, iface, unique);
      t' == t.(input := t'.input, output := t'.output, costly := t.costly - (if unique then {iface} else {}))
  {
    hide TopRules, RemoveFirst, PenaltyRules, HappyRules, OwnRules, SharedRules, Layout, Referenced;
    assert GoodTop(t, c, hops) by { TopFacts(t, c, hops); }
    var h := Hop(iface, Costly(if unique then iface else SHARED));
    TopRemove(Inbound, c.globalAlert != 0, hops, h);
    TopRemove(Outbound, c.globalAlert != 0, hops, h);
    Unhooked(t, c, hops, h);
    var t2 := Exec(Exec(t, Delete(Input, HopRule(Inbound, h))), Delete(Output, HopRule(Outbound, h)));
    if unique {
      NoLongerReferenced(t, t2, c, hops, h);
      assert t2.costly[iface := []] - {iface} == t2.costly - {iface};
    } else {
      assert t.costly - {} == t.costly;
    }
  }

  // ---- Why "shared" is not an interface name ---------------------------------------------

  const SHARED_HOP := Hop(SHARED, Costly(SHARED))

  /** The chains after a quota has been set on an interface called "shared". */
  function Usurped(t: Table, c: Config, hops: seq<Hop>): Table {
    t.(input := TopRules(Inbound, c.globalAlert != 0, Hooked(hops, SHARED_HOP)),
       output := TopRules(Outbound, c.globalAlert != 0, Hooked(hops, SHARED_HOP)),
       costly := t.costly[SHARED := [TO_PENALTY, QuotaRule(SHARED)]])
  }

  lemma UsurpedTop(t: Table, c: Config, hops: seq<Hop>)
    requires Layout(t, c, hops)
    ensures GoodTop(Usurped(t, c, hops), c, Hooked(hops, SHARED_HOP))
  {
  }

  lemma TopIgnoresLists(t: Table, c: Config, hops: seq<Hop>, c': Config)
    requires GoodTop(t, c, hops) && c'.globalAlert == c.globalAlert && c'.tethers == c.tethers
    ensures GoodTop(t, c', hops)
  {
  }

  lemma NoneCalledShared(t: Table, c: Config, hops: seq<Hop>)
    requires Layout(t, c, hops)
    ensures !HasQuota(c.own, SHARED)
  {
  }

  lemma NotLaidOut(t: Table, c: Config, hops: seq<Hop>, q: QuotaInfo)
    requires q in c.own && q.iface == SHARED
    ensures !Layout(t, c, hops)
  {
    EntryNamed(c.own, q);
  }

  /**
   * Setting a quota on an interface called "shared" and removing it again disarms the shared quota: afterwards every
   * packet of an interface that only has the shared quota gets through, exhausted or naughty alike.
   */
  lemma SharedNameDisarms(t: Table, c: Config, hops: seq<Hop>, p: Packet, d: nat)
    requires Layout(t, c, hops) && d >= 1
    requires p.iface in c.shared && p.iface != SHARED && !HasQuota(c.own, p.iface)
    ensures var t' := CleanedUp(Usurped(t, c, hops), SHARED, true); !Rejects(t', Get(t', Top(p.dir)), p, d)
  {
    hide CleanedUp, GoodTop, RemoveFirst, GoodBoxes, GoodCostly, Usurped, Hooked;
    var t1, h := Usurped(t, c, hops), SHARED_HOP;
    UsurpedTop(t, c, hops);
    CleanedUpTop(t1, c, Hooked(hops, h), SHARED, true);
    HookedIs(hops, h);
    RemoveFirstNoDups(hops, h);
    TopWalk(CleanedUp(t1, SHARED, true), c, RemoveFirst(hops, h), p, d);
  }
}
