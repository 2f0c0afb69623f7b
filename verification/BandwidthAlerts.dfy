/**
 * Alerts over whole runs: the value netd records for an alert and the value the kernel was given for it.
 * Setting an alert that is set already gives the kernel the old value again.
 */
module BandwidthAlerts {
  import opened Util
  import opened BandwidthLayout
  import opened BandwidthEdits

  datatype Alarm = OnShared | OnOwn(iface: string)

  function AlarmName(a: Alarm): string { if a == OnShared then "sharedAlert" else a.iface + "Alert" }

  function Recorded(c: Config, a: Alarm): int { if a == OnShared then c.sharedAlert else AlertOf(c, a.iface) }

  /** The request sets this alert, successfully. */
  predicate Sets(c: Config, req: Request, a: Alarm) {
    match req
    case SharedAlert(b) => a == OnShared && c.shared != [] && b != 0
    case Alert(i, b) => a == OnOwn(i) && HasQuota(c.own, i) && b != 0
    case _ => false
  }

  /** How the alert came to its value since it was last absent. */
  datatype Trail = Absent | Once(last: int) | Again(previous: int, last: int)

  function Follow(tr: Trail, c: Config, c': Config, req: Request, a: Alarm): Trail {
    if Recorded(c', a) == 0 then Absent
    else if Sets(c, req, a) then (if Recorded(c, a) == 0 then Once(req.bytes) else Again(Recorded(c, a), req.bytes))
    else tr
  }

  function TrailOf(s: RunState, tr: Trail, reqs: seq<Request>, a: Alarm): Trail
    decreases |reqs|
  {
    if reqs == [] then tr else
    var init, req := reqs[..|reqs| - 1], reqs[|reqs| - 1];
    var t := RunAll(s, init);
    Follow(TrailOf(s, tr, init, a), t.c, RunStep(t, req).c, req, a)
  }

  /** Some other request that uses the quota name of the alert: an interface called like it, or like a part of it. */
  predicate Clashes(req: Request, a: Alarm) {
    match req
    case Quota(i, _) => i == AlarmName(a)
    case GlobalAlert(_) => AlarmName(a) == "globalAlert"
    case TetherUp => AlarmName(a) == "globalAlert"
    case SharedAlert(_) => a == OnOwn(SHARED)
    case Alert(i, _) => a == OnShared && i == SHARED
    case _ => false
  }

  /** What the trail says: the kernel has the value before the last, if there is one. */
  ghost predicate Explains(s: RunState, tr: Trail, a: Alarm) {
    && NoDups(Names(s.c.own))
    && match tr
       case Absent => Recorded(s.c, a) == 0
       case Once(last) => Recorded(s.c, a) == last != 0 && AlarmName(a) in s.limits && s.limits[AlarmName(a)] == last
       case Again(previous, last) => Recorded(s.c, a) == last != 0 && AlarmName(a) in s.limits && s.limits[AlarmName(a)] == previous
  }

  // ---- The own alerts under changes of the list ------------------------------------------

  lemma {:induction false} IndexOfAt(own: seq<QuotaInfo>, k: nat)
    requires k < |own| && NoDups(Names(own))
    ensures IndexOf(own, own[k].iface) == k
  {
    if k > 0 {
      IndexOfAt(own[1..], k - 1);
      NamesApart(own, 0, k);
    }
  }

  /** The alert an entry for the interface carries. */
  lemma {:induction false} AlertIs(c: Config, q: QuotaInfo)
    requires NoDups(Names(c.own)) && q in c.own
    ensures AlertOf(c, q.iface) == q.alert
  {
    var k :| 0 <= k < |c.own| && c.own[k] == q;
    IndexOfAt(c.own, k);
  }

  lemma NewEntry(c: Config, q: QuotaInfo, i: string)
    requires NoDups(Names(c.own)) && !HasQuota(c.own, q.iface) && q.alert == 0
    ensures var c' := c.(own := [q] + c.own); NoDups(Names(c'.own)) && AlertOf(c', i) == AlertOf(c, i)
  {
    assert ([q] + c.own)[1..] == c.own;
    NoDupsCons(q.iface, Names(c.own));
  }

  lemma ChangedEntry(c: Config, k: nat, q: QuotaInfo, i: string)
    requires NoDups(Names(c.own)) && k < |c.own| && c.own[k].iface == q.iface
    ensures var c' := c.(own := c.own[k := q]);
      NoDups(Names(c'.own)) && AlertOf(c', i) == if i == q.iface then q.alert else AlertOf(c, i)
  {
    var c' := c.(own := c.own[k := q]);
    QuotaReplaced(c.own, k, q);
    if i == q.iface {
      assert c'.own[k] == q;
      AlertIs(c', q);
    } else {
      forall r | r in c.own && r.iface == i ensures r in c'.own {
        var n :| 0 <= n < |c.own| && c.own[n] == r;
        assert c'.own[n] == r;
      }
      SameAlert(c, c', i);
    }
  }

  lemma LostEntry(c: Config, k: nat, i: string)
    requires NoDups(Names(c.own)) && k < |c.own|
    ensures var c' := c.(own := c.own[..k] + c.own[k + 1..]);
      NoDups(Names(c'.own)) && AlertOf(c', i) == if i == c.own[k].iface then 0 else AlertOf(c, i)
  {
    var c' := c.(own := c.own[..k] + c.own[k + 1..]);
    NamesErase(c.own, k);
    RemoveFirstNoDups(Names(c.own), c.own[k].iface);
    if i != c.own[k].iface { SameAlert(c, c', i); }
  }

  /** Lists that agree on the entries of an interface agree on its alert. */
  lemma SameAlert(c: Config, c': Config, i: string)
    requires NoDups(Names(c.own)) && NoDups(Names(c'.own)) && (HasQuota(c.own, i) <==> HasQuota(c'.own, i))
    requires forall q | q in c.own && q.iface == i :: q in c'.own
    ensures AlertOf(c', i) == AlertOf(c, i)
  {
    if HasQuota(c.own, i) {
      var q := NamedEntry(c.own, i);
      AlertIs(c, q);
      AlertIs(c', q);
    }
  }

  // ---- One request -----------------------------------------------------------------------

  lemma AlarmNamesDiffer(a: Alarm, i: string)
    ensures AlarmName(a) != SHARED
    ensures AlarmName(OnOwn(i)) == AlarmName(a) <==> a == OnOwn(i) || (a == OnShared && i == SHARED)
    ensures AlarmName(a) == "sharedAlert" <==> a == OnShared || a == OnOwn(SHARED)
  {
    assert SHARED + "Alert" == "sharedAlert";
    var n, m := AlarmName(a), i + "Alert";
    assert m[..|m| - 5] == i;
    if a.OnOwn? {
      assert n[|n| - 1] == 't' && SHARED[5] == 'd';
      assert n[..|n| - 5] == a.iface;
    }
    assert "sharedAlert"[..6] == SHARED;
  }

  /** What a request does to the alert of one interface. */
  lemma OwnAlertAfter(c: Config, live: bool, req: Request, i: string)
    requires NoDups(Names(c.own))
    ensures NoDups(Names(After(c, live, req).own))
    ensures Sets(c, req, OnOwn(i)) ==> AlertOf(After(c, live, req), i) == req.bytes
    ensures !Sets(c, req, OnOwn(i)) ==> (AlertOf(After(c, live, req), i) == AlertOf(c, i) || AlertOf(After(c, live, req), i) == 0)
    ensures AlertOf(c, i) == 0 && !Sets(c, req, OnOwn(i)) ==> AlertOf(After(c, live, req), i) == 0
  {
    hide AlertOf, Names, SpecialApps, WithQuota, WithoutQuota, Values, RemoveFirst;
    if After(c, live, req).own == c.own { SameOwn(c, After(c, live, req), i); }
    match req
    case Quota(j, b) =>
      QuotaKeepsAlerts(c, j, b, i);
      LossTakesAlert(c, j, i);
    case RemoveQuota(j) => LossTakesAlert(c, j, i);
    case Alert(j, b) =>
      var k := IndexOf(c.own, j);
      if k < |c.own| { ChangedEntry(c, k, c.own[k].(alert := b), i); }
    case DropAlert(j) =>
      var k := IndexOf(c.own, j);
      if k < |c.own| { ChangedEntry(c, k, c.own[k].(alert := 0), i); }
    case SharedQuota(_, _) =>
    case RemoveShared(_) =>
    case GlobalAlert(_) =>
    case DropGlobalAlert =>
    case TetherUp =>
    case TetherDown =>
    case SharedAlert(_) =>
    case DropSharedAlert =>
    case HappyOn =>
    case HappyOff =>
    case Apps(_, _, _) =>
  }

  lemma SameOwn(c: Config, c': Config, i: string)
    requires c.own == c'.own
    ensures AlertOf(c', i) == AlertOf(c, i)
  {
  }

  lemma QuotaKeepsAlerts(c: Config, j: string, b: int, i: string)
    requires NoDups(Names(c.own))
    ensures NoDups(Names(WithQuota(c, j, b).own)) && AlertOf(WithQuota(c, j, b), i) == AlertOf(c, i)
  {
    hide AlertOf, Names;
    var k := IndexOf(c.own, j);
    if k < |c.own| {
      ChangedEntry(c, k, c.own[k].(quota := b), i);
      if i == j { AlertIs(c, c.own[k]); }
    } else {
      NewEntry(c, QuotaInfo(j, b, 0), i);
    }
  }

  lemma LossTakesAlert(c: Config, j: string, i: string)
    requires NoDups(Names(c.own))
    ensures NoDups(Names(WithoutQuota(c, j).own))
    ensures AlertOf(WithoutQuota(c, j), i) == AlertOf(c, i) || AlertOf(WithoutQuota(c, j), i) == 0
  {
    hide AlertOf, Names;
    var k := IndexOf(c.own, j);
    if k < |c.own| { LostEntry(c, k, i); }
  }

  lemma SharedAlertAfter(c: Config, live: bool, req: Request)
    ensures Sets(c, req, OnShared) ==> After(c, live, req).sharedAlert == req.bytes
    ensures !Sets(c, req, OnShared) ==> (After(c, live, req).sharedAlert == c.sharedAlert || After(c, live, req).sharedAlert == 0)
  {
  }

  /** Without a clash only setting the alert gives the kernel a value for it. */
  lemma LimitAfter(s: RunState, req: Request, a: Alarm)
    requires !Clashes(req, a)
    ensures var k, n := LimitsAfter(s.limits, s.c, req), AlarmName(a);
      && (Sets(s.c, req, a) ==> n in k && k[n] == if Recorded(s.c, a) != 0 then Recorded(s.c, a) else req.bytes)
      && (!Sets(s.c, req, a) ==> (n in k <==> n in s.limits) && (n in k ==> k[n] == s.limits[n]))
  {
    hide AlarmName;
    AlarmNamesDiffer(a, if req.Alert? then req.iface else "");
    assert req.Alert? ==> AlarmName(OnOwn(req.iface)) == req.iface + "Alert" by { OwnName(if req.Alert? then req.iface else ""); }
  }

  lemma OwnName(i: string)
    ensures AlarmName(OnOwn(i)) == i + "Alert"
  {
  }

  lemma AlarmStep(s: RunState, tr: Trail, req: Request, a: Alarm)
    requires Explains(s, tr, a) && !Clashes(req, a)
    ensures Explains(RunStep(s, req), Follow(tr, s.c, RunStep(s, req).c, req, a), a)
  {
    hide After, LimitsAfter, AlarmName, AlertOf, Clashes;
    OwnAlertAfter(s.c, s.live, req, if a.OnOwn? then a.iface else "");
    SharedAlertAfter(s.c, s.live, req);
    LimitAfter(s, req, a);
  }

  // ---- Every run -------------------------------------------------------------------------

  /** Over every run without a clash the trail explains what is recorded and what the kernel has. */
  lemma {:induction false} RunExplained(s: RunState, tr: Trail, reqs: seq<Request>, a: Alarm)
    requires Explains(s, tr, a) && forall r | r in reqs :: !Clashes(r, a)
    ensures Explains(RunAll(s, reqs), TrailOf(s, tr, reqs, a), a)
    decreases |reqs|
  {
    hide Explains, RunStep;
    if reqs != [] {
      var init, req := reqs[..|reqs| - 1], reqs[|reqs| - 1];
      RunExplained(s, tr, init, a);
      assert req in reqs;
      AlarmStep(RunAll(s, init), TrailOf(s, tr, init, a), req, a);
    }
  }

  /**
   * After enabling and any requests that do not clash with the alert's name: while the alert is set, the kernel has the
   * value that is recorded if and only if it was set once since it was last absent, or its last two values agree.
   */
  lemma KernelAgreesIff(live: bool, limits: map<string, int>, reqs: seq<Request>, a: Alarm)
    requires forall r | r in reqs :: !Clashes(r, a)
    ensures var s, tr, n := RunAll(RunState(FRESH, live, limits), reqs), TrailOf(RunState(FRESH, live, limits), Absent, reqs, a), AlarmName(a);
      Recorded(s.c, a) != 0 ==> (n in s.limits && (s.limits[n] == Recorded(s.c, a) <==> tr.Once? || (tr.Again? && tr.previous == tr.last)))
  {
    assert Names(FRESH.own) == [];
    RunExplained(RunState(FRESH, live, limits), Absent, reqs, a);
  }

  /** Set to 1, then to 2: netd records 2 and the kernel still has 1. */
  lemma AlertSetTwice(live: bool, limits: map<string, int>, iface: string, bytes: int)
    requires ShortName(iface) && bytes > 0
    ensures var s := RunAll(RunState(FRESH, live, limits), [SharedQuota(iface, bytes), SharedAlert(1), SharedAlert(2)]);
      s.c.sharedAlert == 2 && "sharedAlert" in s.limits && s.limits["sharedAlert"] == 1
  {
    var s0, r1, r2, r3 := RunState(FRESH, live, limits), SharedQuota(iface, bytes), SharedAlert(1), SharedAlert(2);
    assert [r1, r2, r3][..2] == [r1, r2] && [r1, r2][..1] == [r1] && [r1][..0] == [];
    var s1 := RunStep(s0, r1);
    assert RunAll(s0, [r1]) == s1 && s1.c.shared == [iface] && s1.c.sharedAlert == 0;
    var s2 := RunStep(s1, r2);
    assert RunAll(s0, [r1, r2]) == s2 && s2.c.sharedAlert == 1;
  }
}
