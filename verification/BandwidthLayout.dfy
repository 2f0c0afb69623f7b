/**
 * What the bandwidth chains look like for a given set of quotas, alerts and special
 * apps, and what a packet walking them meets.
 */
module BandwidthLayout {
  import opened Util
  import opened Iptables

  const SHARED := "shared"

  datatype QuotaInfo = QuotaInfo(iface: string, quota: int, alert: int)

  /** One jump out of bw_INPUT/bw_OUTPUT: traffic of `iface` goes to `chain`. */
  datatype Hop = Hop(iface: string, chain: Chain)

  /** The controller's own lists and counters. `happy` is whether the happy box is hooked in. */
  datatype Config = Config(
    shared: seq<string>, sharedBytes: int, sharedAlert: int,
    own: seq<QuotaInfo>,
    globalAlert: int, tethers: int,
    naughty: seq<int>, nice: seq<int>, happy: bool)

  const TRACK := Rule(HasSocket, Continue)
  const TO_PENALTY := Rule(Anything, Jump(PenaltyBox))
  const TO_HAPPY := Rule(Anything, Jump(HappyBox))
  const REJECT_ALL := Rule(Anything, Reject)
  const GLOBAL_ALERT := AlertRule("globalAlert")
  const SHARED_ALERT := AlertRule("sharedAlert")

  function AlertRule(name: string): Rule { Rule(OverQuota(name), Continue) }

  function QuotaRule(name: string): Rule { Rule(OverQuota(name), Reject) }

  function HopRule(dir: Direction, h: Hop): Rule { Rule(Via(dir, h.iface), Jump(h.chain)) }

  function UidRule(uid: int, target: Target): Rule { Rule(Owner(uid), target) }

  function When(b: bool, r: Rule): seq<Rule> { if b then [r] else [] }

  function UidRules(uids: seq<int>, target: Target): seq<Rule> {
    if uids == [] then [] else [UidRule(uids[0], target)] + UidRules(uids[1..], target)
  }

  function HopRules(dir: Direction, hops: seq<Hop>): seq<Rule> {
    if hops == [] then [] else [HopRule(dir, hops[0])] + HopRules(dir, hops[1..])
  }

  /** bw_INPUT and bw_OUTPUT: the global alert first, then the jumps, then the tracking rule. */
  function TopRules(dir: Direction, alert: bool, hops: seq<Hop>): seq<Rule> {
    When(alert, GLOBAL_ALERT) + (HopRules(dir, hops) + [TRACK])
  }

  function SharedRules(quota: bool, alert: bool): seq<Rule> {
    When(quota, QuotaRule(SHARED)) + ([TO_PENALTY] + When(alert, SHARED_ALERT))
  }

  function OwnRules(q: QuotaInfo): seq<Rule> {
    [TO_PENALTY, QuotaRule(q.iface)] + When(q.alert != 0, AlertRule(q.iface + "Alert"))
  }

  function PenaltyRules(naughty: seq<int>, happy: bool): seq<Rule> {
    UidRules(naughty, Reject) + When(happy, TO_HAPPY)
  }

  /** Nice apps may be listed before the box is hooked in; the closing reject comes with the hook. */
  function HappyRules(nice: seq<int>, happy: bool): seq<Rule> {
    UidRules(nice, Return) + When(happy, REJECT_ALL)
  }

  function Names(own: seq<QuotaInfo>): seq<string> {
    if own == [] then [] else [own[0].iface] + Names(own[1..])
  }

  predicate HasQuota(own: seq<QuotaInfo>, iface: string) { iface in Names(own) }

  /** Names occur once, and no interface owns the chain reserved for the shared quota. */
  ghost predicate GoodQuotas(own: seq<QuotaInfo>) {
    NoDups(Names(own)) && !HasQuota(own, SHARED) && forall q | q in own :: q.iface != SHARED
  }

  lemma {:induction false} EntryNamed(own: seq<QuotaInfo>, q: QuotaInfo)
    requires q in own
    ensures HasQuota(own, q.iface)
  {
    if q != own[0] {
      EntryNamed(own[1..], q);
    }
  }

  lemma {:induction false} NamedEntry(own: seq<QuotaInfo>, iface: string) returns (q: QuotaInfo)
    requires HasQuota(own, iface)
    ensures q in own && q.iface == iface
  {
    if own[0].iface == iface {
      q := own[0];
    } else {
      q := NamedEntry(own[1..], iface);
    }
  }

  /** One jump for each shared interface and one for each interface with its own quota, none twice. */
  ghost predicate GoodHops(hops: seq<Hop>, shared: seq<string>, own: seq<QuotaInfo>) {
    && NoDups(hops)
    && forall h: Hop :: h in hops <==>
        || (h.chain == Costly(SHARED) && h.iface in shared)
        || (h.chain == Costly(h.iface) && HasQuota(own, h.iface))
  }

  ghost predicate GoodCounters(c: Config) {
    && 0 <= c.tethers
    && (c.sharedBytes != 0 <==> c.shared != [])
    && (c.sharedAlert != 0 ==> c.shared != [])
  }

  ghost predicate GoodTop(t: Table, c: Config, hops: seq<Hop>) {
    && t.input == TopRules(Inbound, c.globalAlert != 0, hops)
    && t.output == TopRules(Outbound, c.globalAlert != 0, hops)
    && t.forward == When(c.globalAlert != 0 && c.tethers > 0, GLOBAL_ALERT)
  }

  ghost predicate GoodBoxes(t: Table, c: Config) {
    && t.penalty == PenaltyRules(c.naughty, c.happy)
    && (c.happy ==> t.happy.Some?)
    && (t.happy.Some? ==> t.happy.value == HappyRules(c.nice, c.happy))
  }

  ghost predicate GoodCostly(t: Table, c: Config) {
    && SHARED in t.costly
    && t.costly[SHARED] == SharedRules(c.shared != [], c.sharedAlert != 0)
    && (forall q | q in c.own :: q.iface in t.costly && t.costly[q.iface] == OwnRules(q))
    && (forall n | n in t.costly :: NoCostlyJump(t.costly[n]))
  }

  /** Costly chains are entered from bw_INPUT and bw_OUTPUT only, and the happy box from the penalty box only. */
  ghost predicate NoCostlyJump(rules: seq<Rule>) {
    forall r | r in rules && r.target.Jump? :: r.target.chain == PenaltyBox
  }

  ghost predicate Lists(c: Config, hops: seq<Hop>) {
    && GoodQuotas(c.own)
    && NoDups(c.shared) && NoDups(c.naughty) && NoDups(c.nice)
    && GoodCounters(c)
    && GoodHops(hops, c.shared, c.own)
  }

  ghost predicate Rules(t: Table, c: Config, hops: seq<Hop>) {
    && GoodTop(t, c, hops)
    && GoodBoxes(t, c)
    && GoodCostly(t, c)
  }

  /** The controller's invariant: its lists are sound and every chain is the one they call for. */
  ghost predicate Layout(t: Table, c: Config, hops: seq<Hop>) {
    Lists(c, hops) && Rules(t, c, hops)
  }

  function Top(dir: Direction): Chain { if dir == Inbound then Input else Output }

  // ---- The declarative policy ------------------------------------------------------------

  predicate OwnedBy(p: Packet, uids: seq<int>) { p.owner.Some? && p.owner.value in uids }

  /** A naughty app, or an app outside the happy box while the happy box is on. */
  predicate Penalised(c: Config, p: Packet) {
    OwnedBy(p, c.naughty) || (c.happy && !OwnedBy(p, c.nice))
  }

  predicate Policy(c: Config, p: Packet) {
    || (p.iface in c.shared && (Penalised(c, p) || SHARED in p.exhausted))
    || (HasQuota(c.own, p.iface) && (Penalised(c, p) || p.iface in p.exhausted))
  }

  // ---- Walking one kind of chain ---------------------------------------------------------

  lemma {:induction false} NaughtyWalk(t: Table, uids: seq<int>, tail: seq<Rule>, p: Packet, d: nat)
    ensures Rejects(t, UidRules(uids, Reject) + tail, p, d) <==> OwnedBy(p, uids) || Rejects(t, tail, p, d)
  {
    var rules := UidRules(uids, Reject) + tail;
    if uids == [] {
      assert rules == tail;
    } else {
      assert rules[1..] == UidRules(uids[1..], Reject) + tail;
      NaughtyWalk(t, uids[1..], tail, p, d);
    }
  }

  lemma {:induction false} NiceWalk(t: Table, uids: seq<int>, tail: seq<Rule>, p: Packet, d: nat)
    ensures Rejects(t, UidRules(uids, Return) + tail, p, d) <==> !OwnedBy(p, uids) && Rejects(t, tail, p, d)
  {
    var rules := UidRules(uids, Return) + tail;
    if uids == [] {
      assert rules == tail;
    } else {
      assert rules[1..] == UidRules(uids[1..], Return) + tail;
      NiceWalk(t, uids[1..], tail, p, d);
    }
  }

  lemma PenaltyWalk(t: Table, c: Config, p: Packet, d: nat)
    requires GoodBoxes(t, c) && d >= 1
    ensures Rejects(t, t.penalty, p, d) <==> Penalised(c, p)
  {
    var tail := When(c.happy, TO_HAPPY);
    NaughtyWalk(t, c.naughty, tail, p, d);
    if c.happy {
      assert tail[1..] == [];
      NiceWalk(t, c.nice, [REJECT_ALL], p, d - 1);
    }
  }

  lemma SharedWalk(t: Table, c: Config, p: Packet, d: nat)
    requires GoodBoxes(t, c) && GoodCostly(t, c) && c.shared != [] && d >= 2
    ensures Rejects(t, t.costly[SHARED], p, d) <==> Penalised(c, p) || SHARED in p.exhausted
  {
    var alert := When(c.sharedAlert != 0, SHARED_ALERT);
    RejectsCons(t, QuotaRule(SHARED), [TO_PENALTY] + alert, p, d);
    RejectsCons(t, TO_PENALTY, alert, p, d);
    CountingOnly(t, alert, p, d);
    PenaltyWalk(t, c, p, d - 1);
  }

  lemma OwnWalk(t: Table, c: Config, q: QuotaInfo, p: Packet, d: nat)
    requires GoodBoxes(t, c) && GoodCostly(t, c) && q in c.own && d >= 2
    ensures Rejects(t, t.costly[q.iface], p, d) <==> Penalised(c, p) || q.iface in p.exhausted
  {
    var alert := When(q.alert != 0, AlertRule(q.iface + "Alert"));
    assert OwnRules(q) == [TO_PENALTY] + ([QuotaRule(q.iface)] + alert);
    RejectsCons(t, TO_PENALTY, [QuotaRule(q.iface)] + alert, p, d);
    RejectsCons(t, QuotaRule(q.iface), alert, p, d);
    CountingOnly(t, alert, p, d);
    PenaltyWalk(t, c, p, d - 1);
  }

  lemma CountingOnly(t: Table, rules: seq<Rule>, p: Packet, d: nat)
    requires |rules| <= 1 && forall r | r in rules :: r.target == Continue
    ensures !Rejects(t, rules, p, d)
  {
    if rules != [] {
      assert rules == [rules[0]] + [];
      RejectsCons(t, rules[0], [], p, d);
    }
  }

  /** Does the walk of one costly chain reject the packet? */
  predicate HopRejects(t: Table, h: Hop, p: Packet, d: nat) {
    h.iface == p.iface && d > 0 && Exists(t, h.chain) && Rejects(t, Get(t, h.chain), p, d - 1)
  }

  lemma {:induction false} HopsWalk(t: Table, hops: seq<Hop>, p: Packet, d: nat)
    ensures Rejects(t, HopRules(p.dir, hops) + [TRACK], p, d) <==> exists h :: h in hops && HopRejects(t, h, p, d)
  {
    if hops == [] {
      assert HopRules(p.dir, hops) + [TRACK] == [TRACK];
      CountingOnly(t, [TRACK], p, d);
    } else {
      var rest := HopRules(p.dir, hops[1..]) + [TRACK];
      assert HopRules(p.dir, hops) + [TRACK] == [HopRule(p.dir, hops[0])] + rest;
      RejectsCons(t, HopRule(p.dir, hops[0]), rest, p, d);
      HopsWalk(t, hops[1..], p, d);
      assert hops[0] in hops;
      if h :| h in hops && HopRejects(t, h, p, d) {
        assert h == hops[0] || h in hops[1..];
      }
    }
  }

  /** The named quota that applies behind a hop. */
  function QuotaBehind(h: Hop): string { if h.chain == Costly(SHARED) then SHARED else h.iface }

  lemma HopVerdict(t: Table, c: Config, hops: seq<Hop>, h: Hop, p: Packet, d: nat)
    requires Layout(t, c, hops) && h in hops && h.iface == p.iface && d >= 3
    ensures HopRejects(t, h, p, d) <==> Penalised(c, p) || QuotaBehind(h) in p.exhausted
  {
    if h.chain == Costly(SHARED) && h.iface in c.shared {
      SharedWalk(t, c, p, d - 1);
    } else {
      var q := NamedEntry(c.own, h.iface);
      OwnWalk(t, c, q, p, d - 1);
    }
  }

  lemma TopWalk(t: Table, c: Config, hops: seq<Hop>, p: Packet, d: nat)
    requires GoodTop(t, c, hops)
    ensures Rejects(t, Get(t, Top(p.dir)), p, d) <==> exists h :: h in hops && HopRejects(t, h, p, d)
  {
    var body := HopRules(p.dir, hops) + [TRACK];
    if c.globalAlert != 0 {
      RejectsCons(t, GLOBAL_ALERT, body, p, d);
    } else {
      assert TopRules(p.dir, false, hops) == body;
    }
    HopsWalk(t, hops, p, d);
  }

  /** The main result: the chain walk decides exactly the policy, for every packet. */
  lemma WalkEqualsPolicy(t: Table, c: Config, hops: seq<Hop>, p: Packet, d: nat)
    requires Layout(t, c, hops) && d >= 3
    ensures Rejects(t, Get(t, Top(p.dir)), p, d) <==> Policy(c, p)
  {
    TopWalk(t, c, hops, p, d);
    forall h | h in hops && h.iface == p.iface
      ensures HopRejects(t, h, p, d) <==> Penalised(c, p) || QuotaBehind(h) in p.exhausted
    {
      HopVerdict(t, c, hops, h, p, d);
    }
    if Policy(c, p) {
      var sharedHit := p.iface in c.shared && (Penalised(c, p) || SHARED in p.exhausted);
      var h := Hop(p.iface, Costly(if sharedHit then SHARED else p.iface));
      assert h in hops;
    }
  }

  // ---- Who is counted against a quota ----------------------------------------------------

  predicate IsOwnQuota(r: Rule) {
    r.on.OverQuota? && r.target == Reject && r != QuotaRule(SHARED)
  }

  ghost predicate Misses(rs: set<Rule>) { forall r | r in rs :: !IsOwnQuota(r) }

  lemma {:induction false} BoxReach(t: Table, uids: seq<int>, target: Target, tail: seq<Rule>, p: Packet, d: nat)
    requires target == Reject || target == Return
    requires Misses(Reached(t, tail, p, d))
    ensures Misses(Reached(t, UidRules(uids, target) + tail, p, d))
  {
    if uids == [] {
      assert UidRules(uids, target) + tail == tail;
    } else {
      var rest := UidRules(uids[1..], target) + tail;
      assert UidRules(uids, target) + tail == [UidRule(uids[0], target)] + rest;
      ReachedCons(t, UidRule(uids[0], target), rest, p, d);
      BoxReach(t, uids[1..], target, tail, p, d);
    }
  }

  lemma PenaltyReach(t: Table, c: Config, p: Packet, d: nat)
    requires GoodBoxes(t, c) && d >= 1
    ensures Misses(Reached(t, t.penalty, p, d))
  {
    var tail := When(c.happy, TO_HAPPY);
    if c.happy {
      assert [REJECT_ALL] == [REJECT_ALL] + [] && tail == [TO_HAPPY] + [];
      ReachedCons(t, REJECT_ALL, [], p, d - 1);
      BoxReach(t, c.nice, Return, [REJECT_ALL], p, d - 1);
      ReachedCons(t, TO_HAPPY, [], p, d);
    }
    BoxReach(t, c.naughty, Reject, tail, p, d);
  }

  lemma SharedReach(t: Table, c: Config, p: Packet, d: nat)
    requires GoodBoxes(t, c) && GoodCostly(t, c) && c.shared != [] && d >= 2 && Penalised(c, p)
    ensures Misses(Reached(t, t.costly[SHARED], p, d))
  {
    PenaltyWalk(t, c, p, d - 1);
    PenaltyReach(t, c, p, d - 1);
    var alert := When(c.sharedAlert != 0, SHARED_ALERT);
    ReachedCons(t, TO_PENALTY, alert, p, d);
    ReachedCons(t, QuotaRule(SHARED), [TO_PENALTY] + alert, p, d);
  }

  lemma OwnReach(t: Table, c: Config, q: QuotaInfo, p: Packet, d: nat)
    requires GoodBoxes(t, c) && GoodCostly(t, c) && q in c.own && d >= 2 && Penalised(c, p)
    ensures Misses(Reached(t, t.costly[q.iface], p, d))
  {
    PenaltyWalk(t, c, p, d - 1);
    PenaltyReach(t, c, p, d - 1);
    var tail := [QuotaRule(q.iface)] + When(q.alert != 0, AlertRule(q.iface + "Alert"));
    assert OwnRules(q) == [TO_PENALTY] + tail;
    ReachedCons(t, TO_PENALTY, tail, p, d);
  }

  lemma ChainReach(t: Table, c: Config, hops: seq<Hop>, h: Hop, p: Packet, d: nat)
    requires Layout(t, c, hops) && h in hops && d >= 2 && Penalised(c, p)
    ensures Exists(t, h.chain) && Misses(Reached(t, Get(t, h.chain), p, d))
  {
    if h.chain == Costly(SHARED) && h.iface in c.shared {
      SharedReach(t, c, p, d);
    } else {
      var q := NamedEntry(c.own, h.iface);
      OwnReach(t, c, q, p, d);
    }
  }

  lemma {:induction false} HopsReach(t: Table, c: Config, all: seq<Hop>, hops: seq<Hop>, p: Packet, d: nat)
    requires Layout(t, c, all) && d >= 3 && Penalised(c, p)
    requires forall h | h in hops :: h in all
    ensures Misses(Reached(t, HopRules(p.dir, hops) + [TRACK], p, d))
  {
    if hops == [] {
      assert HopRules(p.dir, hops) + [TRACK] == [TRACK] + [];
      ReachedCons(t, TRACK, [], p, d);
    } else {
      var rest := HopRules(p.dir, hops[1..]) + [TRACK];
      assert HopRules(p.dir, hops) + [TRACK] == [HopRule(p.dir, hops[0])] + rest;
      ReachedCons(t, HopRule(p.dir, hops[0]), rest, p, d);
      HopsReach(t, c, all, hops[1..], p, d);
      ChainReach(t, c, all, hops[0], p, d - 1);
    }
  }

  lemma TopReach(t: Table, c: Config, hops: seq<Hop>, p: Packet, d: nat)
    requires GoodTop(t, c, hops)
    ensures Reached(t, Get(t, Top(p.dir)), p, d) ==
      (if c.globalAlert != 0 then {GLOBAL_ALERT} else {}) + Reached(t, HopRules(p.dir, hops) + [TRACK], p, d)
  {
    var body := HopRules(p.dir, hops) + [TRACK];
    if c.globalAlert != 0 {
      ReachedCons(t, GLOBAL_ALERT, body, p, d);
    } else {
      assert TopRules(p.dir, false, hops) == body;
    }
  }

  /** A penalised packet is never counted against an interface's own quota. */
  lemma PenalisedSparesOwnQuota(t: Table, c: Config, hops: seq<Hop>, p: Packet, d: nat)
    requires Layout(t, c, hops) && d >= 3 && Penalised(c, p)
    ensures forall q | q in c.own :: QuotaRule(q.iface) !in Reached(t, Get(t, Top(p.dir)), p, d)
  {
    TopReach(t, c, hops, p, d);
    HopsReach(t, c, hops, hops, p, d);
    forall q | q in c.own ensures QuotaRule(q.iface) !in Reached(t, Get(t, Top(p.dir)), p, d) {
      assert IsOwnQuota(QuotaRule(q.iface));
    }
  }

  lemma {:induction false} HopsCount(t: Table, hops: seq<Hop>, h: Hop, r: Rule, p: Packet, d: nat)
    requires h in hops && h.iface == p.iface && d > 0 && Exists(t, h.chain)
    requires forall g | g in hops :: !HopRejects(t, g, p, d)
    requires r in Reached(t, Get(t, h.chain), p, d - 1)
    ensures r in Reached(t, HopRules(p.dir, hops) + [TRACK], p, d)
  {
    var rest := HopRules(p.dir, hops[1..]) + [TRACK];
    assert HopRules(p.dir, hops) + [TRACK] == [HopRule(p.dir, hops[0])] + rest;
    ReachedCons(t, HopRule(p.dir, hops[0]), rest, p, d);
    if h != hops[0] {
      assert hops[0] in hops && !HopRejects(t, hops[0], p, d);
      HopsCount(t, hops[1..], h, r, p, d);
    }
  }

  lemma OwnQuotaReached(t: Table, c: Config, q: QuotaInfo, p: Packet, d: nat)
    requires GoodBoxes(t, c) && GoodCostly(t, c) && q in c.own && d >= 2 && !Penalised(c, p)
    ensures QuotaRule(q.iface) in Reached(t, t.costly[q.iface], p, d)
  {
    var alert := When(q.alert != 0, AlertRule(q.iface + "Alert"));
    assert OwnRules(q) == [TO_PENALTY] + ([QuotaRule(q.iface)] + alert);
    ReachedCons(t, TO_PENALTY, [QuotaRule(q.iface)] + alert, p, d);
    ReachedCons(t, QuotaRule(q.iface), alert, p, d);
    PenaltyWalk(t, c, p, d - 1);
  }

  /** A packet that gets through is counted against every quota of its interface. */
  lemma AcceptedIsCounted(t: Table, c: Config, hops: seq<Hop>, p: Packet, d: nat)
    requires Layout(t, c, hops) && d >= 3 && !Policy(c, p)
    ensures p.iface in c.shared ==> QuotaRule(SHARED) in Reached(t, Get(t, Top(p.dir)), p, d)
    ensures HasQuota(c.own, p.iface) ==> QuotaRule(p.iface) in Reached(t, Get(t, Top(p.dir)), p, d)
  {
    WalkEqualsPolicy(t, c, hops, p, d);
    TopWalk(t, c, hops, p, d);
    TopReach(t, c, hops, p, d);
    if p.iface in c.shared {
      ReachedCons(t, QuotaRule(SHARED), [TO_PENALTY] + When(c.sharedAlert != 0, SHARED_ALERT), p, d - 1);
      HopsCount(t, hops, Hop(p.iface, Costly(SHARED)), QuotaRule(SHARED), p, d);
    }
    if HasQuota(c.own, p.iface) {
      var q := NamedEntry(c.own, p.iface);
      OwnQuotaReached(t, c, q, p, d - 1);
      HopsCount(t, hops, Hop(p.iface, Costly(p.iface)), QuotaRule(p.iface), p, d);
    }
  }
}
