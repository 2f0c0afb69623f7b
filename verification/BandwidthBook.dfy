/**
 * The bandwidth requests as a plain book of sets and maps, kept from the requests alone. Over every run
 * netd's lists, and the values the kernel has for the quotas, are those of the book.
 */
module BandwidthBook {
  import opened Util
  import opened BandwidthLayout
  import opened BandwidthEdits

  /** `box` is whether the happy box exists; an interface without an entry in `alerts` has no alert. */
  datatype Book = Book(
    shared: set<string>, sharedBytes: int, sharedAlert: int,
    quotas: map<string, int>, alerts: map<string, int>,
    globalAlert: int, tethers: int,
    naughty: set<int>, nice: set<int>, happy: bool, box: bool)

  function Blank(box: bool): Book { Book({}, 0, 0, map[], map[], 0, 0, {}, {}, false, box) }

  /** The last interface takes the size and the alert of the shared quota with it. */
  function Unshare(b: Book, iface: string): Book {
    if iface !in b.shared then b
    else if b.shared == {iface} then b.(shared := {}, sharedBytes := 0, sharedAlert := 0)
    else b.(shared := b.shared - {iface})
  }

  function Drop(b: Book, iface: string): Book { b.(quotas := b.quotas - {iface}, alerts := b.alerts - {iface}) }

  /** Uid by uid, up to the first that is listed already or, when removing, missing; without a box only the first. */
  function Listed(uids: set<int>, more: seq<Option<int>>, add: bool, box: bool): set<int>
    requires None !in more
    decreases more
  {
    if more == [] || (more[0].value in uids) == add then uids
    else
      var uids' := if add then uids + {more[0].value} else uids - {more[0].value};
      if box then Listed(uids', more[1..], add, box) else uids'
  }

  function Note(b: Book, req: Request): Book {
    match req
    case SharedQuota(i, n) =>
      if n == 0 || |i| >= 64 then b else if n == -1 then Unshare(b, i) else b.(shared := b.shared + {i}, sharedBytes := n)
    case RemoveShared(i) => if |i| >= 64 then b else Unshare(b, i)
    case Quota(i, n) => if n == 0 || |i| >= 64 then b else if n == -1 then Drop(b, i) else b.(quotas := b.quotas[i := n])
    case RemoveQuota(i) => if |i| >= 64 then b else Drop(b, i)
    case GlobalAlert(n) => if n == 0 then b else b.(globalAlert := n)
    case DropGlobalAlert => b.(globalAlert := 0)
    case TetherUp => b.(tethers := b.tethers + 1)
    case TetherDown => if b.tethers > 0 then b.(tethers := b.tethers - 1) else b
    case SharedAlert(n) => if n == 0 || b.shared == {} then b else b.(sharedAlert := n)
    case DropSharedAlert => b.(sharedAlert := 0)
    case Alert(i, n) => if n == 0 || i !in b.quotas then b else b.(alerts := b.alerts[i := n])
    case DropAlert(i) => b.(alerts := b.alerts - {i})
    case HappyOn => b.(nice := {}, happy := true, box := true)
    case HappyOff => b.(nice := {}, happy := false, box := false)
    case Apps(uids, nice, add) =>
      if None in uids then b
      else if nice then b.(nice := Listed(b.nice, uids, add, b.box))
      else b.(naughty := Listed(b.naughty, uids, add, true))
  }

  function BookOf(box: bool, reqs: seq<Request>): Book
    decreases |reqs|
  {
    if reqs == [] then Blank(box) else Note(BookOf(box, reqs[..|reqs| - 1]), reqs[|reqs| - 1])
  }

  // ---- Lists that match the book ---------------------------------------------------------

  ghost predicate SameMembers<T(!new)>(s: set<T>, list: seq<T>) {
    NoDups(list) && forall x :: x in s <==> x in list
  }

  function EntryFor(own: seq<QuotaInfo>, iface: string): Option<QuotaInfo> {
    var k := IndexOf(own, iface);
    if k < |own| then Some(own[k]) else None
  }

  function Noted(quotas: map<string, int>, alerts: map<string, int>, iface: string): Option<QuotaInfo> {
    if iface !in quotas then None
    else Some(QuotaInfo(iface, quotas[iface], if iface in alerts then alerts[iface] else 0))
  }

  ghost predicate SameQuotas(quotas: map<string, int>, alerts: map<string, int>, own: seq<QuotaInfo>) {
    NoDups(Names(own)) && alerts.Keys <= quotas.Keys && forall i :: EntryFor(own, i) == Noted(quotas, alerts, i)
  }

  ghost predicate Matches(b: Book, c: Config, live: bool) {
    && SameMembers(b.shared, c.shared) && b.sharedBytes == c.sharedBytes && b.sharedAlert == c.sharedAlert
    && SameQuotas(b.quotas, b.alerts, c.own)
    && b.globalAlert == c.globalAlert && b.tethers == c.tethers
    && SameMembers(b.naughty, c.naughty) && SameMembers(b.nice, c.nice) && b.happy == c.happy && b.box == live
  }

  lemma EmptyMembers<T(!new)>()
    ensures SameMembers<T>({}, [])
  {
  }

  lemma MoreMembers<T(!new)>(s: set<T>, list: seq<T>, x: T)
    requires SameMembers(s, list) && x !in list
    ensures SameMembers(s + {x}, [x] + list)
  {
    NoDupsCons(x, list);
  }

  lemma FewerMembers<T(!new)>(s: set<T>, list: seq<T>, x: T)
    requires SameMembers(s, list)
    ensures SameMembers(s - {x}, RemoveFirst(list, x))
    ensures RemoveFirst(list, x) == [] <==> s - {x} == {}
  {
    RemoveFirstNoDups(list, x);
    hide RemoveFirst;
    if s - {x} == {} && RemoveFirst(list, x) != [] {
      assert RemoveFirst(list, x)[0] in s - {x};
    }
    if RemoveFirst(list, x) == [] {
      assert forall y :: y !in s - {x};
    }
  }

  lemma SharedGoes(b: Book, c: Config, live: bool, i: string)
    requires Matches(b, c, live)
    ensures i in c.shared ==> Matches(Unshare(b, i), WithoutShared(c, i), live)
    ensures i !in c.shared ==> Unshare(b, i) == b
  {
    hide SameQuotas;
    FewerMembers(b.shared, c.shared, i);
    if i in c.shared {
      assert forall x | x in b.shared :: x == i || x in b.shared - {i};
      assert b.shared - {i} == {} <==> b.shared == {i};
    }
    EmptyMembers<string>();
    hide SameMembers;
  }

  lemma SharedJoins(b: Book, c: Config, live: bool, i: string, n: int)
    requires Matches(b, c, live)
    ensures Matches(b.(shared := b.shared + {i}, sharedBytes := n), WithShared(c, i, n), live)
  {
    hide SameQuotas;
    if i in c.shared {
      assert b.shared + {i} == b.shared;
    } else {
      MoreMembers(b.shared, c.shared, i);
    }
    hide SameMembers;
  }

  // ---- Quotas of their own ---------------------------------------------------------------

  lemma {:induction false} EntryReplaced(own: seq<QuotaInfo>, q: QuotaInfo, i: string)
    requires HasQuota(own, q.iface)
    ensures EntryFor(own[IndexOf(own, q.iface) := q], i) == if i == q.iface then Some(q) else EntryFor(own, i)
  {
    var k := IndexOf(own, q.iface);
    var now := own[k := q];
    if k > 0 {
      assert now[1..] == own[1..][k - 1 := q];
      EntryReplaced(own[1..], q, i);
    } else {
      assert now[1..] == own[1..];
    }
  }

  lemma {:induction false} EntryErased(own: seq<QuotaInfo>, j: string, i: string)
    requires HasQuota(own, j) && NoDups(Names(own))
    ensures var k := IndexOf(own, j); EntryFor(own[..k] + own[k + 1..], i) == if i == j then None else EntryFor(own, i)
  {
    var k := IndexOf(own, j);
    var q, rest := own[0], own[1..];
    assert own == [q] + rest;
    EntryAdded(rest, q, i);
    if q.iface == j {
      assert own[..0] + own[1..] == rest;
      NotNamed(rest, j);
    } else {
      var left := rest[..k - 1] + rest[k..];
      assert own[..k] + own[k + 1..] == [q] + left;
      EntryAdded(left, q, i);
      hide EntryFor;
      EntryErased(rest, j, i);
    }
  }

  lemma NotNamed(own: seq<QuotaInfo>, i: string)
    requires !HasQuota(own, i)
    ensures EntryFor(own, i) == None
  {
  }

  lemma EntryAdded(own: seq<QuotaInfo>, q: QuotaInfo, i: string)
    ensures EntryFor([q] + own, i) == if i == q.iface then Some(q) else EntryFor(own, i)
  {
    assert ([q] + own)[1..] == own;
  }

  lemma HasEntry(quotas: map<string, int>, alerts: map<string, int>, own: seq<QuotaInfo>, i: string)
    requires SameQuotas(quotas, alerts, own)
    ensures HasQuota(own, i) <==> i in quotas
    ensures HasQuota(own, i) ==> Noted(quotas, alerts, i) == Some(own[IndexOf(own, i)])
  {
    hide IndexOf;
    assert EntryFor(own, i) == Noted(quotas, alerts, i);
  }

  lemma QuotaSet(quotas: map<string, int>, alerts: map<string, int>, c: Config, j: string, n: int)
    requires SameQuotas(quotas, alerts, c.own)
    ensures SameQuotas(quotas[j := n], alerts, WithQuota(c, j, n).own)
  {
    hide IndexOf, EntryFor, Names;
    HasEntry(quotas, alerts, c.own, j);
    var k, own := IndexOf(c.own, j), WithQuota(c, j, n).own;
    if k < |c.own| {
      QuotaReplaced(c.own, k, own[k]);
    } else {
      NamesCons(QuotaInfo(j, n, 0), c.own);
      NoDupsCons(j, Names(c.own));
    }
    forall i ensures EntryFor(own, i) == Noted(quotas[j := n], alerts, i) {
      assert EntryFor(c.own, i) == Noted(quotas, alerts, i);
      if k < |c.own| { EntryReplaced(c.own, own[k], i); } else { EntryAdded(c.own, QuotaInfo(j, n, 0), i); }
    }
  }

  lemma QuotaGone(quotas: map<string, int>, alerts: map<string, int>, c: Config, j: string)
    requires SameQuotas(quotas, alerts, c.own)
    ensures SameQuotas(quotas - {j}, alerts - {j}, WithoutQuota(c, j).own)
  {
    hide IndexOf, EntryFor, Names;
    HasEntry(quotas, alerts, c.own, j);
    var k, own := IndexOf(c.own, j), WithoutQuota(c, j).own;
    if k < |c.own| {
      NamesErase(c.own, k);
      RemoveFirstNoDups(Names(c.own), j);
    }
    forall i ensures EntryFor(own, i) == Noted(quotas - {j}, alerts - {j}, i) {
      assert EntryFor(c.own, i) == Noted(quotas, alerts, i);
      if k < |c.own| { EntryErased(c.own, j, i); }
    }
  }

  lemma AlertSet(quotas: map<string, int>, alerts: map<string, int>, c: Config, j: string, n: int)
    requires SameQuotas(quotas, alerts, c.own)
    ensures j in quotas ==> SameQuotas(quotas, alerts[j := n], WithAlert(c, j, n).own)
    ensures j !in quotas ==> WithAlert(c, j, n) == c
    ensures SameQuotas(quotas, alerts - {j}, WithAlert(c, j, 0).own)
  {
    hide IndexOf, EntryFor, Names;
    HasEntry(quotas, alerts, c.own, j);
    if j in quotas {
      AlertChanged(quotas, alerts, c, j, n, alerts[j := n]);
      AlertChanged(quotas, alerts, c, j, 0, alerts - {j});
    } else {
      assert alerts - {j} == alerts;
    }
  }

  lemma AlertChanged(quotas: map<string, int>, alerts: map<string, int>, c: Config, j: string, n: int, alerts': map<string, int>)
    requires SameQuotas(quotas, alerts, c.own) && j in quotas
    requires alerts' == alerts[j := n] || (n == 0 && alerts' == alerts - {j})
    ensures SameQuotas(quotas, alerts', WithAlert(c, j, n).own)
  {
    hide IndexOf, EntryFor, Names;
    HasEntry(quotas, alerts, c.own, j);
    var k := IndexOf(c.own, j);
    var q := c.own[k].(alert := n);
    QuotaReplaced(c.own, k, q);
    forall i ensures EntryFor(c.own[k := q], i) == Noted(quotas, alerts', i) {
      assert EntryFor(c.own, i) == Noted(quotas, alerts, i);
      EntryReplaced(c.own, q, i);
    }
  }

  // ---- Special apps ----------------------------------------------------------------------

  lemma {:induction false} AppsMatch(uids: set<int>, list: seq<int>, more: seq<Option<int>>, add: bool, live: bool)
    requires SameMembers(uids, list) && None !in more
    ensures SameMembers(Listed(uids, more, add, live), SpecialApps(list, Values(more), add, live).0)
    decreases more
  {
    hide RemoveFirst;
    if more != [] {
      var u := more[0].value;
      assert Values(more)[0] == u && Values(more)[1..] == Values(more[1..]);
      if (u in list) != add {
        if add { MoreMembers(uids, list, u); } else { FewerMembers(uids, list, u); }
        var uids', list' := if add then uids + {u} else uids - {u}, if add then [u] + list else RemoveFirst(list, u);
        if live { AppsMatch(uids', list', more[1..], add, live); }
      }
    }
  }

  // ---- Every request, every run ----------------------------------------------------------

  lemma NoteMatches(b: Book, c: Config, live: bool, req: Request)
    requires Matches(b, c, live)
    ensures Matches(Note(b, req), After(c, live, req), LiveAfter(live, req))
  {
    hide SameQuotas, SameMembers, Unshare, WithShared, WithoutShared, Listed, SpecialApps, Values;
    EmptyMembers<int>();
    match req
    case SharedQuota(i, n) =>
      SharedGoes(b, c, live, i);
      SharedJoins(b, c, live, i, n);
    case RemoveShared(i) => SharedGoes(b, c, live, i);
    case Quota(i, n) => QuotaMatches(b, c, live, req);
    case RemoveQuota(i) => QuotaMatches(b, c, live, req);
    case Alert(i, n) => QuotaMatches(b, c, live, req);
    case DropAlert(i) => QuotaMatches(b, c, live, req);
    case Apps(uids, nice, add) =>
      if None !in uids {
        AppsMatch(if nice then b.nice else b.naughty, if nice then c.nice else c.naughty, uids, add, !nice || live);
      }
    case SharedAlert(_) => NoneShared(b.shared, c.shared);
    case _ =>
  }

  lemma OnlyOwn(c: Config, i: string, n: int)
    ensures WithQuota(c, i, n) == c.(own := WithQuota(c, i, n).own) && WithoutQuota(c, i) == c.(own := WithoutQuota(c, i).own)
    ensures WithAlert(c, i, n) == c.(own := WithAlert(c, i, n).own) && WithAlert(c, i, 0) == c.(own := WithAlert(c, i, 0).own)
  {
    hide IndexOf;
  }

  lemma QuotaMatches(b: Book, c: Config, live: bool, req: Request)
    requires Matches(b, c, live) && (req.Quota? || req.RemoveQuota? || req.Alert? || req.DropAlert?)
    ensures Matches(Note(b, req), After(c, live, req), live)
  {
    hide SameQuotas, SameMembers, WithQuota, WithoutQuota, WithAlert;
    OnlyOwn(c, req.iface, if req.Quota? || req.Alert? then req.bytes else 0);
    match req
    case Quota(i, n) =>
      QuotaSet(b.quotas, b.alerts, c, i, n);
      QuotaGone(b.quotas, b.alerts, c, i);
    case RemoveQuota(i) => QuotaGone(b.quotas, b.alerts, c, i);
    case Alert(i, n) => AlertSet(b.quotas, b.alerts, c, i, n);
    case DropAlert(i) => AlertSet(b.quotas, b.alerts, c, i, 0);
  }

  lemma NoneShared(s: set<string>, list: seq<string>)
    requires SameMembers(s, list)
    ensures s == {} <==> list == []
  {
    if list != [] { assert list[0] in s; }
  }

  lemma BlankMatches(box: bool)
    ensures Matches(Blank(box), FRESH, box)
  {
    assert Names([]) == [];
  }

  /** After enabling and any requests, netd's lists hold what the book says, nothing more and nothing less. */
  lemma {:induction false} RunMatches(box: bool, limits: map<string, int>, reqs: seq<Request>)
    ensures var s := RunAll(RunState(FRESH, box, limits), reqs); Matches(BookOf(box, reqs), s.c, s.live)
    decreases |reqs|
  {
    hide Matches, Note, After;
    if reqs == [] {
      BlankMatches(box);
    } else {
      var init, req := reqs[..|reqs| - 1], reqs[|reqs| - 1];
      RunMatches(box, limits, init);
      var s := RunAll(RunState(FRESH, box, limits), init);
      NoteMatches(BookOf(box, init), s.c, s.live, req);
    }
  }

  // ---- What the kernel has ---------------------------------------------------------------

  ghost predicate Has(limits: map<string, int>, name: string, bytes: int) { name in limits && limits[name] == bytes }

  /** Another request that gives the kernel a value under the same name. */
  predicate Clashes(req: Request, name: string) {
    match req
    case SharedQuota(_, _) => name == "shared"
    case Quota(i, _) => name == i
    case GlobalAlert(_) => name == "globalAlert"
    case TetherUp => name == "globalAlert"
    case SharedAlert(_) => name == "sharedAlert"
    case Alert(i, _) => name == i + "Alert"
    case _ => false
  }

  lemma KernelKeeps(limits: map<string, int>, c: Config, req: Request, name: string)
    requires !Clashes(req, name)
    ensures forall bytes | Has(limits, name, bytes) :: Has(LimitsAfter(limits, c, req), name, bytes)
  {
  }

  /** While some interface shares it, both netd and the kernel have the size last accepted for the shared quota. */
  lemma {:induction false} SharedQuotaInKernel(box: bool, limits: map<string, int>, reqs: seq<Request>)
    requires forall r | r in reqs :: !r.SharedQuota? ==> !Clashes(r, "shared")
    ensures var s, b := RunAll(RunState(FRESH, box, limits), reqs), BookOf(box, reqs);
      && (b.shared != {} ==> Has(s.limits, "shared", b.sharedBytes))
      && s.c.sharedBytes == b.sharedBytes && (s.c.shared != [] <==> b.shared != {})
    decreases |reqs|
  {
    RunMatches(box, limits, reqs);
    NoneShared(BookOf(box, reqs).shared, RunAll(RunState(FRESH, box, limits), reqs).c.shared);
    hide After, LimitsAfter, Matches, Clashes, Has;
    if reqs != [] {
      var init, req := reqs[..|reqs| - 1], reqs[|reqs| - 1];
      assert req in reqs && forall r | r in init :: r in reqs;
      SharedQuotaInKernel(box, limits, init);
      RunMatches(box, limits, init);
      var s := RunAll(RunState(FRESH, box, limits), init);
      SharedStep(BookOf(box, init), s, req);
    }
  }

  lemma SharedStep(b: Book, s: RunState, req: Request)
    requires Matches(b, s.c, s.live) && (b.shared != {} ==> Has(s.limits, "shared", b.sharedBytes))
    requires !req.SharedQuota? ==> !Clashes(req, "shared")
    ensures var b' := Note(b, req); b'.shared != {} ==> Has(LimitsAfter(s.limits, s.c, req), "shared", b'.sharedBytes)
  {
    NoneShared(b.shared, s.c.shared);
    hide SameQuotas, SameMembers, Listed, AlertOf;
    if !req.SharedQuota? { KernelKeeps(s.limits, s.c, req, "shared"); }
  }

  /** While an interface has a quota of its own, both netd and the kernel have the size last accepted for it. */
  lemma {:induction false} OwnQuotaInKernel(box: bool, limits: map<string, int>, reqs: seq<Request>, iface: string)
    requires forall r | r in reqs :: !r.Quota? ==> !Clashes(r, iface)
    ensures var s, b := RunAll(RunState(FRESH, box, limits), reqs), BookOf(box, reqs);
      && (iface in b.quotas ==> Has(s.limits, iface, b.quotas[iface]))
      && (HasQuota(s.c.own, iface) <==> iface in b.quotas)
      && (iface in b.quotas ==> s.c.own[IndexOf(s.c.own, iface)].quota == b.quotas[iface])
    decreases |reqs|
  {
    RunMatches(box, limits, reqs);
    var c := RunAll(RunState(FRESH, box, limits), reqs).c;
    HasEntry(BookOf(box, reqs).quotas, BookOf(box, reqs).alerts, c.own, iface);
    hide After, LimitsAfter, Clashes, Has, Note;
    if reqs != [] {
      var init, req := reqs[..|reqs| - 1], reqs[|reqs| - 1];
      assert req in reqs && forall r | r in init :: r in reqs;
      OwnQuotaInKernel(box, limits, init, iface);
      OwnStep(BookOf(box, init), RunAll(RunState(FRESH, box, limits), init), req, iface);
    }
  }

  lemma OwnStep(b: Book, s: RunState, req: Request, iface: string)
    requires iface in b.quotas ==> Has(s.limits, iface, b.quotas[iface])
    requires !req.Quota? ==> !Clashes(req, iface)
    ensures var b' := Note(b, req); iface in b'.quotas ==> Has(LimitsAfter(s.limits, s.c, req), iface, b'.quotas[iface])
  {
    hide Listed, AlertOf;
    if !req.Quota? { KernelKeeps(s.limits, s.c, req, iface); }
  }

  /** While the global alert is set, the kernel has the size last accepted for it, in all its chains. */
  lemma {:induction false} GlobalAlertInKernel(box: bool, limits: map<string, int>, reqs: seq<Request>)
    requires forall r | r in reqs :: !r.GlobalAlert? && !r.TetherUp? ==> !Clashes(r, "globalAlert")
    ensures var s, b := RunAll(RunState(FRESH, box, limits), reqs), BookOf(box, reqs);
      b.globalAlert != 0 ==> Has(s.limits, "globalAlert", b.globalAlert)
    decreases |reqs|
  {
    hide After, LimitsAfter, Matches, Clashes, Has, Note;
    if reqs != [] {
      var init, req := reqs[..|reqs| - 1], reqs[|reqs| - 1];
      assert req in reqs && forall r | r in init :: r in reqs;
      GlobalAlertInKernel(box, limits, init);
      RunMatches(box, limits, init);
      GlobalStep(BookOf(box, init), RunAll(RunState(FRESH, box, limits), init), req);
    }
  }

  lemma GlobalStep(b: Book, s: RunState, req: Request)
    requires Matches(b, s.c, s.live) && (b.globalAlert != 0 ==> Has(s.limits, "globalAlert", b.globalAlert))
    requires !req.GlobalAlert? && !req.TetherUp? ==> !Clashes(req, "globalAlert")
    ensures var b' := Note(b, req); b'.globalAlert != 0 ==> Has(LimitsAfter(s.limits, s.c, req), "globalAlert", b'.globalAlert)
  {
    hide SameQuotas, SameMembers, Listed, AlertOf;
    if !req.GlobalAlert? && !req.TetherUp? { KernelKeeps(s.limits, s.c, req, "globalAlert"); }
  }
}
