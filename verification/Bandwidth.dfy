/**
 * netd's BandwidthController: it edits the bandwidth chains one iptables command at a
 * time and keeps lists that have to agree with them.
 */
module Bandwidth {
  import opened Util
  import opened Iptables
  import opened BandwidthLayout
  import opened BandwidthEdits
  import BandwidthBook

  class BandwidthController {
    /** The kernel's chains. */
    var table: Table
    /** Values written to /proc/net/xt_quota/<name>, oldest first. */
    var procWrites: seq<(string, int)>
    /** The value the kernel last took for each quota name, from a rule that was added or from /proc. */
    var limits: map<string, int>

    var sharedQuotaIfaces: seq<string>
    var sharedQuotaBytes: int
    var sharedAlertBytes: int
    var globalAlertBytes: int
    var globalAlertTetherCount: int
    var quotaIfaces: seq<QuotaInfo>
    var naughtyAppUids: seq<int>
    var niceAppUids: seq<int>

    /** The jumps out of bw_INPUT and bw_OUTPUT, in chain order. */
    ghost var hops: seq<Hop>
    ghost var happyOn: bool

    ghost function Cfg(): Config
      reads this
    {
      Config(sharedQuotaIfaces, sharedQuotaBytes, sharedAlertBytes, quotaIfaces,
             globalAlertBytes, globalAlertTetherCount, naughtyAppUids, niceAppUids, happyOn)
    }

    ghost predicate Valid()
      reads this
    {
      Layout(table, Cfg(), hops)
    }

    /** runIpxtablesCmd: 0 is success. */
    method RunCmd(cmd: Command) returns (failed: bool)
      modifies this`table
      ensures table == Exec(old(table), cmd) && failed == !Accepts(old(table), cmd)
    {
      failed := !Accepts(table, cmd);
      table := Exec(table, cmd);
    }

    /** A command that adds a quota2 rule: the kernel takes the rule's value for its name. */
    method RunQuotaCmd(cmd: Command, name: string, bytes: int) returns (failed: bool)
      modifies this`table, this`limits
      ensures table == Exec(old(table), cmd) && failed == !Accepts(old(table), cmd)
      ensures limits == if failed then old(limits) else old(limits)[name := bytes]
    {
      failed := RunCmd(cmd);
      if !failed {
        limits := limits[name := bytes];
      }
    }

    /** updateQuota: the file exists while some rule carries the name. */
    method UpdateQuota(name: string, bytes: int) returns (failed: bool)
      modifies this`procWrites, this`limits
      ensures failed == !Named(table, name)
      ensures procWrites == if failed then old(procWrites) else old(procWrites) + [(name, bytes)]
      ensures limits == if failed then old(limits) else old(limits)[name := bytes]
    {
      if !Named(table, name) {
        return true;
      }
      procWrites := procWrites + [(name, bytes)];
      limits := limits[name := bytes];
      return false;
    }

    /** The delete-then-insert pair that puts a jump at the head of one top chain's jumps. */
    method HookTop(dir: Direction, h: Hop, ghost hs: seq<Hop>) returns (failed: bool)
      requires Get(table, Top(dir)) == TopRules(dir, globalAlertBytes != 0, hs)
      requires Exists(table, h.chain)
      modifies this`table
      ensures !failed && table == Put(old(table), Top(dir), TopRules(dir, globalAlertBytes != 0, Hooked(hs, h)))
    {
      hide TopRules, RemoveFirst;
      TopRemove(dir, globalAlertBytes != 0, hs, h);
      if h !in hs { RemoveFirstAbsent(hs, h); }
      TopInsert(dir, globalAlertBytes != 0, RemoveFirst(hs, h), h);
      var pos := if globalAlertBytes != 0 then 2 else 1;
      var ignored := RunCmd(Delete(Top(dir), HopRule(dir, h)));
      failed := RunCmd(Insert(Top(dir), pos, HopRule(dir, h)));
    }

    /** Empties an existing chain or creates a missing one: exactly one of the two commands succeeds. */
    method FreshCostlyChain(iface: string) returns (failed: bool)
      modifies this`table
      ensures !failed && table == Put(old(table), Costly(iface), [TO_PENALTY])
    {
      var res1 := RunCmd(Flush(Costly(iface)));
      var res2 := RunCmd(NewChain(Costly(iface)));
      failed := (res1 && res2) || (!res1 && !res2);
      assert table == Put(old(table), Costly(iface), []);
      assert [] + [TO_PENALTY] == [TO_PENALTY];
      var res3 := RunCmd(Append(Costly(iface), TO_PENALTY));
      failed := failed || res3;
    }

    /** The jumps for `iface` into its costly chain; an interface with its own quota gets a fresh chain. */
    method PrepCostlyIface(iface: string, unique: bool) returns (failed: bool)
      requires GoodTop(table, Cfg(), hops) && (unique || SHARED in table.costly)
      modifies this`table, this`hops
      ensures !failed
      ensures hops == Hooked(old(hops), Hop(iface, Costly(if unique then iface else SHARED)))
      ensures GoodTop(table, Cfg(), hops)
      ensures table == old(table).(input := table.input, output := table.output, costly :=
        if unique then old(table).costly[iface := [TO_PENALTY]] else old(table).costly)
    {
      hide TopRules, Hooked;
      var h := Hop(iface, Costly(if unique then iface else SHARED));
      failed := false;
      if unique {
        failed := FreshCostlyChain(iface);
      }
      var res := HookTop(Inbound, h, hops);
      failed := failed || res;
      res := HookTop(Outbound, h, hops);
      failed := failed || res;
      hops := Hooked(hops, h);
    }

    /**
     * Out of both top chains with the jumps of `iface`; the chain of an interface with its own quota is
     * flushed and deleted. In a state laid out for the lists every command succeeds.
     */
    method CleanupCostlyIface(iface: string, unique: bool) returns (failed: bool)
      modifies this`table, this`hops
      ensures table == CleanedUp(old(table), iface, unique)
      ensures hops == RemoveFirst(old(hops), Hop(iface, Costly(if unique then iface else SHARED)))
      ensures GoodTop(old(table), Cfg(), old(hops)) ==> GoodTop(table, Cfg(), hops)
      ensures old(Valid()) && Hop(iface, Costly(if unique then iface else SHARED)) in old(hops) && (unique ==> iface != SHARED) ==>
        (!failed && table == old(table).(input := table.input, output := table.output, costly := old(table).costly - (if unique then {iface} else {})))
    {
      hide TopRules, PenaltyRules, HappyRules, OwnRules, SharedRules, Layout, GoodTop, Accepts, Exec;
      var h := Hop(iface, Costly(if unique then iface else SHARED));
      failed := RunCmd(Delete(Input, HopRule(Inbound, h)));
      var res := RunCmd(Delete(Output, HopRule(Outbound, h)));
      failed := failed || res;
      if unique {
        res := RunCmd(Flush(Costly(iface)));
        failed := failed || res;
        res := RunCmd(DeleteChain(Costly(iface)));
        failed := failed || res;
      }
      if GoodTop(old(table), Cfg(), hops) { CleanedUpTop(old(table), Cfg(), hops, iface, unique); }
      if Layout(old(table), Cfg(), hops) && h in hops && (unique ==> iface != SHARED) {
        CleanedUpQuietly(old(table), Cfg(), hops, iface, unique);
      }
      hops := RemoveFirst(hops, h);
    }

    method FindShared(iface: string) returns (k: nat)
      ensures k <= |sharedQuotaIfaces|
      ensures k < |sharedQuotaIfaces| ==> sharedQuotaIfaces[k] == iface
      ensures iface !in sharedQuotaIfaces[..k]
    {
      k := 0;
      while k < |sharedQuotaIfaces| && sharedQuotaIfaces[k] != iface
        invariant k <= |sharedQuotaIfaces|
        invariant iface !in sharedQuotaIfaces[..k]
      {
        k := k + 1;
      }
    }

    /** A shared quota for `iface`: 0 is refused and -1 means remove. */
    method SetInterfaceSharedQuota(iface: string, maxBytes: int) returns (rc: int)
      requires Valid()
      modifies this
      ensures Valid()
      ensures rc == 0 <==> maxBytes != 0 && |iface| < MAX_IFACENAME_LEN && (maxBytes == -1 ==> iface in old(sharedQuotaIfaces))
      ensures Cfg() == (
        if rc != 0 then old(Cfg())
        else if maxBytes == -1 then WithoutShared(old(Cfg()), iface)
        else WithShared(old(Cfg()), iface, maxBytes))
      ensures rc == 0 && maxBytes != -1 ==> sharedQuotaBytes == maxBytes && iface in sharedQuotaIfaces
      ensures rc == 0 && maxBytes != -1 ==>
        (SHARED in limits && limits[SHARED] == maxBytes) || (old(sharedQuotaIfaces) != [] && old(sharedQuotaBytes) == maxBytes)
      ensures procWrites == old(procWrites) + (
        if rc == 0 && maxBytes != -1 && old(sharedQuotaIfaces) != [] && maxBytes != old(sharedQuotaBytes)
        then [(SHARED, maxBytes)] else [])
      ensures table.happy == old(table).happy
      ensures limits == LimitsAfter(old(limits), old(Cfg()), SharedQuota(iface, maxBytes))
    {
      hide Layout;
      if maxBytes == 0 {
        return -1;
      }
      if |iface| >= MAX_IFACENAME_LEN {
        return -1;
      }
      if maxBytes == -1 {
        rc := RemoveInterfaceSharedQuota(iface);
        return;
      }
      var k := FindShared(iface);
      if k == |sharedQuotaIfaces| {
        assert sharedQuotaIfaces[..k] == sharedQuotaIfaces;
        AddSharedIface(iface, maxBytes);
      }
      if maxBytes != sharedQuotaBytes {
        SharedInUse(table, Cfg(), hops, maxBytes);
        var failed := UpdateQuota(SHARED, maxBytes);
        assert !failed;
        sharedQuotaBytes := maxBytes;
      }
      rc := 0;
    }

    /** The first shared interface also brings the shared quota rule. */
    method AddSharedIface(iface: string, maxBytes: int)
      requires Valid() && iface !in sharedQuotaIfaces && maxBytes != 0
      modifies this`table, this`hops, this`sharedQuotaBytes, this`sharedQuotaIfaces, this`limits
      ensures Valid() && table.happy == old(table).happy
      ensures limits == if old(sharedQuotaIfaces) == [] then old(limits)[SHARED := maxBytes] else old(limits)
      ensures Cfg() == WithShared(old(Cfg()), iface, if old(sharedQuotaIfaces) == [] then maxBytes else old(sharedQuotaBytes))
    {
      hide Layout, TopRules, SharedRules;
      SharedFacts(table, Cfg(), hops, iface);
      RemoveFirstAbsent(hops, Hop(iface, Costly(SHARED)));
      var failed := PrepCostlyIface(iface, false);
      if sharedQuotaIfaces == [] {
        var res := AddSharedQuotaRule(maxBytes);
        assert !failed && !res;
        sharedQuotaBytes := maxBytes;
      }
      SharedJoined(old(table), old(Cfg()), old(hops), iface, sharedQuotaBytes, table);
      sharedQuotaIfaces := [iface] + sharedQuotaIfaces;
    }

    /** Removing the last shared interface takes the shared quota rule and the shared alert with it. */
    method RemoveInterfaceSharedQuota(iface: string) returns (rc: int)
      requires Valid()
      modifies this
      ensures Valid()
      ensures rc == if |iface| < MAX_IFACENAME_LEN && iface in old(sharedQuotaIfaces) then 0 else -1
      ensures Cfg() == if rc == 0 then WithoutShared(old(Cfg()), iface) else old(Cfg())
      ensures procWrites == old(procWrites) && limits == old(limits) && table.happy == old(table).happy
    {
      hide Layout, SharedRules, GoodTop, RemoveFirst;
      SharedFacts(table, Cfg(), hops, iface);
      if |iface| >= MAX_IFACENAME_LEN {
        return -1;
      }
      var k := FindShared(iface);
      if k == |sharedQuotaIfaces| {
        assert sharedQuotaIfaces[..k] == sharedQuotaIfaces;
        return -1;
      }
      EraseIsRemove(sharedQuotaIfaces, k);
      assert iface in sharedQuotaIfaces;
      var failed := CleanupCostlyIface(iface, false);
      assert table.costly == old(table).costly && Cfg() == old(Cfg());
      ghost var unhooked := table;
      sharedQuotaIfaces := sharedQuotaIfaces[..k] + sharedQuotaIfaces[k + 1..];
      if sharedQuotaIfaces == [] {
        var res := DropSharedQuotaRule();
        failed := failed || res;
      }
      TopIgnoresCostly(unhooked, old(Cfg()), hops, table);
      SharedLeft(old(table), old(Cfg()), old(hops), iface, table);
      rc := if failed then 1 else 0;
    }

    method AddSharedQuotaRule(maxBytes: int) returns (failed: bool)
      requires SHARED in table.costly && table.costly[SHARED] == SharedRules(false, sharedAlertBytes != 0)
      modifies this`table, this`limits
      ensures limits == old(limits)[SHARED := maxBytes]
      ensures !failed && table == old(table).(costly := old(table).costly[SHARED := SharedRules(true, sharedAlertBytes != 0)])
    {
      failed := RunQuotaCmd(Insert(Costly(SHARED), 1, QuotaRule(SHARED)), SHARED, maxBytes);
      assert table.costly[SHARED] == SharedRules(true, sharedAlertBytes != 0);
    }

    method DropSharedQuotaRule() returns (failed: bool)
      requires SHARED in table.costly && table.costly[SHARED] == SharedRules(true, sharedAlertBytes != 0)
      modifies this`table, this`sharedQuotaBytes, this`sharedAlertBytes
      ensures !failed && table == old(table).(costly := old(table).costly[SHARED := SharedRules(false, false)])
      ensures sharedQuotaBytes == 0 && sharedAlertBytes == 0
    {
      hide SharedRules, RemoveFirst, AlertRule;
      SharedAlertRemove(false);
      SharedQuotaRemove(sharedAlertBytes != 0);
      failed := RunCmd(Delete(Costly(SHARED), QuotaRule(SHARED)));
      assert table.costly[SHARED] == SharedRules(false, sharedAlertBytes != 0);
      sharedQuotaBytes := 0;
      if sharedAlertBytes != 0 {
        var ignored := RemoveCostlyAlert(SHARED, sharedAlertBytes);
        sharedAlertBytes := 0;
      }
      assert table.costly[SHARED] == SharedRules(false, false);
    }

    /** With an alert in place this rewrites the value the alert already had, not the new one. */
    method SetCostlyAlert(cost: string, bytes: int, alertBytes: int) returns (failed: bool)
      requires cost in table.costly
      requires alertBytes != 0 ==> Named(table, cost + "Alert")
      modifies this`table, this`procWrites, this`limits
      ensures failed == (bytes == 0)
      ensures table == if bytes == 0 || alertBytes != 0 then old(table)
        else Put(old(table), Costly(cost), old(table).costly[cost] + [AlertRule(cost + "Alert")])
      ensures procWrites == old(procWrites) + if bytes != 0 && alertBytes != 0 then [(cost + "Alert", alertBytes)] else []
      ensures limits == if bytes == 0 then old(limits) else old(limits)[cost + "Alert" := if alertBytes != 0 then alertBytes else bytes]
    {
      if bytes == 0 {
        return true;
      }
      if alertBytes != 0 {
        failed := UpdateQuota(cost + "Alert", alertBytes);
      } else {
        failed := RunQuotaCmd(Append(Costly(cost), AlertRule(cost + "Alert")), cost + "Alert", bytes);
      }
    }

    method RemoveCostlyAlert(cost: string, alertBytes: int) returns (failed: bool)
      modifies this`table
      ensures failed == (alertBytes == 0 || !Accepts(old(table), Delete(Costly(cost), AlertRule(cost + "Alert"))))
      ensures table == if alertBytes == 0 then old(table) else Exec(old(table), Delete(Costly(cost), AlertRule(cost + "Alert")))
    {
      if alertBytes == 0 {
        return true;
      }
      failed := RunCmd(Delete(Costly(cost), AlertRule(cost + "Alert")));
    }

    /** The alert on the shared quota; it needs a shared quota in place. */
    method SetSharedAlert(bytes: int) returns (rc: int)
      requires Valid()
      modifies this
      ensures Valid()
      ensures rc == if old(sharedQuotaIfaces) != [] && bytes != 0 then 0 else -1
      ensures Cfg() == if rc == 0 then old(Cfg()).(sharedAlert := bytes) else old(Cfg())
      ensures procWrites == old(procWrites) + if rc == 0 && old(sharedAlertBytes) != 0 then [("sharedAlert", old(sharedAlertBytes))] else []
      ensures table.happy == old(table).happy
      ensures limits == LimitsAfter(old(limits), old(Cfg()), SharedAlert(bytes))
    {
      hide Layout, TopRules, SharedRules;
      SharedFacts(table, Cfg(), hops, "");
      if sharedQuotaBytes == 0 {
        return -1;
      }
      if bytes == 0 {
        return -1;
      }
      SharedAlertEdits(table, sharedQuotaIfaces != []);
      var failed := SetCostlyAlert(SHARED, bytes, sharedAlertBytes);
      SharedAlertSet(old(table), Cfg(), hops, bytes, table);
      sharedAlertBytes := bytes;
      rc := if failed then 1 else 0;
    }

    method RemoveSharedAlert() returns (rc: int)
      requires Valid()
      modifies this
      ensures Valid()
      ensures rc == if old(sharedAlertBytes) != 0 then 0 else -1
      ensures Cfg() == old(Cfg()).(sharedAlert := 0)
      ensures procWrites == old(procWrites) && limits == old(limits) && table.happy == old(table).happy
    {
      hide Layout, TopRules, SharedRules;
      SharedFacts(table, Cfg(), hops, "");
      if sharedAlertBytes == 0 {
        return -1;
      }
      SharedAlertEdits(table, sharedQuotaIfaces != []);
      var failed := RemoveCostlyAlert(SHARED, sharedAlertBytes);
      SharedAlertSet(old(table), Cfg(), hops, 0, table);
      sharedAlertBytes := 0;
      rc := if failed then 1 else 0;
    }

    method FindQuota(iface: string) returns (k: nat)
      ensures k == IndexOf(quotaIfaces, iface)
    {
      k := 0;
      while k < |quotaIfaces| && quotaIfaces[k].iface != iface
        invariant k <= |quotaIfaces|
        invariant IndexOf(quotaIfaces, iface) == k + IndexOf(quotaIfaces[k..], iface)
      {
        k := k + 1;
      }
    }

    /** A quota of its own for `iface`. With the name "shared" it takes over the chain of the shared quota. */
    method SetInterfaceQuota(iface: string, maxBytes: int) returns (rc: int)
      requires Valid()
      modifies this
      ensures Valid() <==> !(rc == 0 && iface == SHARED)
      ensures rc == 0 && iface == SHARED ==> hops == Hooked(old(hops), SHARED_HOP) && table == Usurped(old(table), old(Cfg()), old(hops))
      ensures rc == 0 <==> maxBytes != 0 && |iface| < MAX_IFACENAME_LEN && (maxBytes == -1 ==> HasQuota(old(quotaIfaces), iface))
      ensures rc == 0 && maxBytes != -1 ==> Cfg() == WithQuota(old(Cfg()), iface, maxBytes)
      ensures rc == 0 && maxBytes == -1 ==> Cfg() == WithoutQuota(old(Cfg()), iface)
      ensures rc != 0 ==> Cfg() == old(Cfg())
      ensures procWrites == old(procWrites) +
        if rc == 0 && maxBytes != -1 && HasQuota(old(quotaIfaces), iface) then [(iface, maxBytes)] else []
      ensures table.happy == old(table).happy
      ensures limits == LimitsAfter(old(limits), old(Cfg()), Quota(iface, maxBytes))
    {
      hide Layout, TopRules, OwnRules, Usurped;
      NoneCalledShared(table, Cfg(), hops);
      if maxBytes == 0 {
        return -1;
      }
      if maxBytes == -1 {
        rc := RemoveInterfaceQuota(iface);
        return;
      }
      if |iface| >= MAX_IFACENAME_LEN {
        return -1;
      }
      var k := FindQuota(iface);
      if k == |quotaIfaces| {
        AddQuotaIface(iface, maxBytes);
      } else {
        OwnEntry(table, Cfg(), hops, k);
        var failed := UpdateQuota(iface, maxBytes);
        OwnQuota(quotaIfaces[k], maxBytes);
        OwnEdited(table, Cfg(), hops, k, quotaIfaces[k].(quota := maxBytes), table);
        quotaIfaces := quotaIfaces[k := quotaIfaces[k].(quota := maxBytes)];
      }
      rc := 0;
    }

    /** The penalty-box jump comes first and the quota rule is appended behind it. */
    method AddQuotaIface(iface: string, maxBytes: int)
      requires Valid() && !HasQuota(quotaIfaces, iface)
      modifies this`table, this`hops, this`quotaIfaces, this`limits
      ensures Valid() <==> iface != SHARED
      ensures iface == SHARED ==> hops == Hooked(old(hops), SHARED_HOP) && table == Usurped(old(table), old(Cfg()), old(hops))
      ensures Cfg() == old(Cfg()).(own := [QuotaInfo(iface, maxBytes, 0)] + old(quotaIfaces))
      ensures table.happy == old(table).happy && limits == old(limits)[iface := maxBytes]
    {
      hide Layout, TopRules, OwnRules, Hooked, Exec, Accepts;
      OwnFacts(table, Cfg(), hops, iface);
      ghost var h := Hop(iface, Costly(iface));
      HookedIs(hops, h);
      var failed := PrepCostlyIface(iface, true);
      QuotaAppended(table, iface);
      var res := RunQuotaCmd(Append(Costly(iface), QuotaRule(iface)), iface, maxBytes);
      assert !failed && !res;
      ghost var q := QuotaInfo(iface, maxBytes, 0);
      if iface != SHARED {
        OwnJoined(old(table), old(Cfg()), old(hops), q, table);
      }
      quotaIfaces := [QuotaInfo(iface, maxBytes, 0)] + quotaIfaces;
      if iface == SHARED {
        NotLaidOut(table, Cfg(), hops, q);
      }
    }

    method RemoveInterfaceQuota(iface: string) returns (rc: int)
      requires Valid() || (iface == SHARED && GoodTop(table, Cfg(), hops))
      modifies this
      ensures old(Valid()) ==> Valid()
      ensures old(Valid()) ==> (rc == 0 || rc == -1)
      ensures rc == -1 <==> !(|iface| < MAX_IFACENAME_LEN && HasQuota(old(quotaIfaces), iface))
      ensures Cfg() == if rc != -1 then WithoutQuota(old(Cfg()), iface) else old(Cfg())
      ensures rc != -1 ==> hops == RemoveFirst(old(hops), Hop(iface, Costly(iface))) && table == CleanedUp(old(table), iface, true)
      ensures procWrites == old(procWrites) && limits == old(limits) && table.happy == old(table).happy
    {
      hide Layout, TopRules, OwnRules, CleanedUp, RemoveFirst, GoodTop;
      if |iface| >= MAX_IFACENAME_LEN {
        return -1;
      }
      var k := FindQuota(iface);
      if k == |quotaIfaces| {
        return -1;
      }
      if Layout(table, Cfg(), hops) {
        NoneCalledShared(table, Cfg(), hops);
        OwnFacts(table, Cfg(), hops, iface);
      }
      var failed := CleanupCostlyIface(iface, true);
      CleanedUpKeepsHappy(old(table), iface, true);
      if Layout(old(table), old(Cfg()), old(hops)) {
        OwnLeft(old(table), old(Cfg()), old(hops), k, table);
      }
      quotaIfaces := quotaIfaces[..k] + quotaIfaces[k + 1..];
      rc := if failed then 1 else 0;
    }

    /**
     * A quota on an interface called "shared", set and removed again: every packet of an interface that only has
     * the shared quota gets through from then on, exhausted or naughty alike.
     */
    method QuotaOnShared(bytes: int)
      requires Valid() && bytes != 0 && bytes != -1
      modifies this
      ensures Cfg() == old(Cfg())
      ensures forall p: Packet, d: nat | d >= 1 && p.iface in sharedQuotaIfaces && p.iface != SHARED && !HasQuota(quotaIfaces, p.iface) ::
        !Rejects(table, Get(table, Top(p.dir)), p, d)
    {
      hide Layout, Usurped, CleanedUp, Hooked, GoodTop, RemoveFirst;
      UsurpedTop(table, Cfg(), hops);
      NoneCalledShared(table, Cfg(), hops);
      var rc := SetInterfaceQuota(SHARED, bytes);
      TopIgnoresLists(table, old(Cfg()), hops, Cfg());
      rc := RemoveInterfaceQuota(SHARED);
      assert quotaIfaces == old(quotaIfaces);
      forall p: Packet, d: nat | d >= 1 && p.iface in sharedQuotaIfaces && p.iface != SHARED && !HasQuota(quotaIfaces, p.iface)
        ensures !Rejects(table, Get(table, Top(p.dir)), p, d)
      {
        SharedNameDisarms(old(table), old(Cfg()), old(hops), p, d);
      }
    }

    /** The alert on an interface's own quota; the interface must have one. */
    method SetInterfaceAlert(iface: string, bytes: int) returns (rc: int)
      requires Valid()
      modifies this
      ensures Valid()
      ensures rc == if bytes != 0 && HasQuota(old(quotaIfaces), iface) then 0 else -1
      ensures Cfg() == if rc == 0 then WithAlert(old(Cfg()), iface, bytes) else old(Cfg())
      ensures procWrites == old(procWrites) +
        if rc == 0 && AlertOf(old(Cfg()), iface) != 0 then [(iface + "Alert", AlertOf(old(Cfg()), iface))] else []
      ensures table.happy == old(table).happy
      ensures limits == LimitsAfter(old(limits), old(Cfg()), Alert(iface, bytes))
    {
      hide Layout, TopRules, OwnRules, LimitsAfter;
      AlertLimits(limits, Cfg(), iface, bytes);
      if bytes == 0 {
        return -1;
      }
      var k := FindQuota(iface);
      if k == |quotaIfaces| {
        return -1;
      }
      OwnEntry(table, Cfg(), hops, k);
      var q := quotaIfaces[k];
      var failed := SetCostlyAlert(iface, bytes, q.alert);
      OwnAlert(q, bytes);
      OwnEdited(old(table), Cfg(), hops, k, q.(alert := bytes), table);
      quotaIfaces := quotaIfaces[k := q.(alert := bytes)];
      rc := if failed then 1 else 0;
    }

    method RemoveInterfaceAlert(iface: string) returns (rc: int)
      requires Valid()
      modifies this
      ensures Valid()
      ensures rc == if AlertOf(old(Cfg()), iface) != 0 then 0 else -1
      ensures Cfg() == WithAlert(old(Cfg()), iface, 0)
      ensures procWrites == old(procWrites) && limits == old(limits) && table.happy == old(table).happy
    {
      hide Layout, TopRules, OwnRules;
      var k := FindQuota(iface);
      if k == |quotaIfaces| {
        return -1;
      }
      OwnEntry(table, Cfg(), hops, k);
      var q := quotaIfaces[k];
      if q.alert == 0 {
        return -1;
      }
      OwnAlert(q, 0);
      var failed := RemoveCostlyAlert(iface, q.alert);
      OwnEdited(old(table), Cfg(), hops, k, q.(alert := 0), table);
      quotaIfaces := quotaIfaces[k := q.(alert := 0)];
      rc := if failed then 1 else 0;
    }

    /** Inserts or deletes the global alert in bw_INPUT and bw_OUTPUT. */
    method AlertCmd(add: bool, bytes: int, ghost hs: seq<Hop>) returns (failed: bool)
      requires table.input == TopRules(Inbound, !add, hs) && table.output == TopRules(Outbound, !add, hs)
      modifies this`table, this`limits
      ensures !failed && limits == if add then old(limits)["globalAlert" := bytes] else old(limits)
      ensures table == old(table).(input := TopRules(Inbound, add, hs), output := TopRules(Outbound, add, hs))
    {
      hide TopRules;
      TopAlert(Inbound, hs);
      TopAlert(Outbound, hs);
      failed := GlobalAlertCmd(add, Input, bytes);
      assert table.input == TopRules(Inbound, add, hs);
      var res := GlobalAlertCmd(add, Output, bytes);
      assert table.output == TopRules(Outbound, add, hs);
      failed := failed || res;
    }

    method GlobalAlertCmd(add: bool, chain: Chain, bytes: int) returns (failed: bool)
      modifies this`table, this`limits
      ensures var cmd := if add then Insert(chain, 1, GLOBAL_ALERT) else Delete(chain, GLOBAL_ALERT);
        table == Exec(old(table), cmd) && failed == !Accepts(old(table), cmd)
      ensures limits == if add && !failed then old(limits)["globalAlert" := bytes] else old(limits)
    {
      if add {
        failed := RunQuotaCmd(Insert(chain, 1, GLOBAL_ALERT), "globalAlert", bytes);
      } else {
        failed := RunCmd(Delete(chain, GLOBAL_ALERT));
      }
    }

    method AlertFwdCmd(add: bool, bytes: int) returns (failed: bool)
      requires table.forward == When(!add, GLOBAL_ALERT)
      modifies this`table, this`limits
      ensures !failed && table == old(table).(forward := When(add, GLOBAL_ALERT))
      ensures limits == if add then old(limits)["globalAlert" := bytes] else old(limits)
    {
      failed := GlobalAlertCmd(add, Forward, bytes);
    }

    method SetGlobalAlert(bytes: int) returns (rc: int)
      requires Valid()
      modifies this
      ensures Valid()
      ensures rc == if bytes != 0 then 0 else -1
      ensures Cfg() == if bytes != 0 then old(Cfg()).(globalAlert := bytes) else old(Cfg())
      ensures procWrites == old(procWrites) + if bytes != 0 && old(globalAlertBytes) != 0 then [("globalAlert", bytes)] else []
      ensures table.happy == old(table).happy
      ensures limits == LimitsAfter(old(limits), old(Cfg()), GlobalAlert(bytes))
    {
      hide Layout, TopRules;
      TopFacts(table, Cfg(), hops);
      if bytes == 0 {
        return -1;
      }
      var failed;
      if globalAlertBytes != 0 {
        failed := UpdateQuota("globalAlert", bytes);
      } else {
        failed := AlertCmd(true, bytes, hops);
        if globalAlertTetherCount != 0 {
          var res := AlertFwdCmd(true, bytes);
          failed := failed || res;
        }
      }
      TopEdited(old(table), Cfg(), hops, Cfg().(globalAlert := bytes), table);
      globalAlertBytes := bytes;
      rc := if failed then 1 else 0;
    }

    method RemoveGlobalAlert() returns (rc: int)
      requires Valid()
      modifies this
      ensures Valid()
      ensures rc == if old(globalAlertBytes) != 0 then 0 else -1
      ensures Cfg() == old(Cfg()).(globalAlert := 0)
      ensures procWrites == old(procWrites) && limits == old(limits) && table.happy == old(table).happy
    {
      hide Layout, TopRules;
      TopFacts(table, Cfg(), hops);
      if globalAlertBytes == 0 {
        return -1;
      }
      var failed := AlertCmd(false, globalAlertBytes, hops);
      if globalAlertTetherCount != 0 {
        var res := AlertFwdCmd(false, globalAlertBytes);
        failed := failed || res;
      }
      TopEdited(old(table), Cfg(), hops, Cfg().(globalAlert := 0), table);
      globalAlertBytes := 0;
      rc := if failed then 1 else 0;
    }

    /** A tether comes up; the first one brings an active alert into bw_FORWARD. */
    method SetGlobalAlertInForwardChain() returns (rc: int)
      requires Valid()
      modifies this
      ensures Valid() && rc == 0
      ensures Cfg() == old(Cfg()).(tethers := old(globalAlertTetherCount) + 1)
      ensures procWrites == old(procWrites) && table.happy == old(table).happy
      ensures limits == LimitsAfter(old(limits), old(Cfg()), TetherUp)
    {
      hide Layout, TopRules;
      TopFacts(table, Cfg(), hops);
      globalAlertTetherCount := globalAlertTetherCount + 1;
      if globalAlertBytes == 0 || globalAlertTetherCount != 1 {
        TopEdited(table, old(Cfg()), hops, Cfg(), table);
        return 0;
      }
      var failed := AlertFwdCmd(true, globalAlertBytes);
      TopEdited(old(table), old(Cfg()), hops, Cfg(), table);
      rc := if failed then 1 else 0;
    }

    /** A tether goes away; the last one takes an active alert out of bw_FORWARD. */
    method RemoveGlobalAlertInForwardChain() returns (rc: int)
      requires Valid()
      modifies this
      ensures Valid()
      ensures rc == if old(globalAlertTetherCount) > 0 then 0 else -1
      ensures Cfg() == if rc == 0 then old(Cfg()).(tethers := old(globalAlertTetherCount) - 1) else old(Cfg())
      ensures procWrites == old(procWrites) && limits == old(limits) && table.happy == old(table).happy
    {
      hide Layout, TopRules;
      TopFacts(table, Cfg(), hops);
      if globalAlertTetherCount == 0 {
        return -1;
      }
      globalAlertTetherCount := globalAlertTetherCount - 1;
      if globalAlertBytes == 0 || globalAlertTetherCount >= 1 {
        TopEdited(table, old(Cfg()), hops, Cfg(), table);
        return 0;
      }
      var failed := AlertFwdCmd(false, globalAlertBytes);
      TopEdited(old(table), old(Cfg()), hops, Cfg(), table);
      rc := if failed then 1 else 0;
    }

    /** Switching the happy box on empties it first: nobody is nice until listed again. */
    method EnableHappyBox() returns (rc: int)
      requires Valid()
      modifies this
      ensures Valid() && rc == 0
      ensures Cfg() == old(Cfg()).(nice := [], happy := true)
      ensures table.happy.Some? && procWrites == old(procWrites) && limits == old(limits)
    {
      hide Layout, PenaltyRules, HappyRules;
      BoxFacts(table, Cfg(), hops);
      var ignored := RunCmd(NewChain(HappyBox));
      niceAppUids := [];
      var failed := RunCmd(Flush(HappyBox));
      assert table == old(table).(happy := Some([]));
      var res := HookHappyBox();
      failed := failed || res;
      BoxesEdited(old(table), old(Cfg()), hops, naughtyAppUids, [], true, table);
      happyOn := true;
      rc := if failed then 1 else 0;
    }

    method HookHappyBox() returns (failed: bool)
      requires table.penalty == PenaltyRules(naughtyAppUids, happyOn) && table.happy == Some([])
      modifies this`table
      ensures !failed
      ensures table == old(table).(penalty := PenaltyRules(naughtyAppUids, true), happy := Some(HappyRules([], true)))
    {
      hide PenaltyRules, HappyRules;
      HappyHook(naughtyAppUids, happyOn);
      var ignored := RunCmd(Delete(PenaltyBox, TO_HAPPY));
      assert table == old(table).(penalty := PenaltyRules(naughtyAppUids, false));
      failed := RunCmd(Append(PenaltyBox, TO_HAPPY));
      ignored := RunCmd(Delete(HappyBox, REJECT_ALL));
      var res := RunCmd(Append(HappyBox, REJECT_ALL));
      failed := failed || res;
    }

    method DisableHappyBox() returns (rc: int)
      requires Valid()
      modifies this
      ensures Valid() && rc == 0
      ensures Cfg() == old(Cfg()).(nice := [], happy := false)
      ensures table.happy == None && procWrites == old(procWrites) && limits == old(limits)
    {
      hide Layout, PenaltyRules, HappyRules, Exec, Accepts, GoodBoxes;
      HappyTakenDown(table, Cfg(), hops);
      BoxFacts(table, Cfg(), hops);
      NoneTwice();
      var ignored := RunCmd(Delete(PenaltyBox, TO_HAPPY));
      niceAppUids := [];
      ignored := RunCmd(Flush(HappyBox));
      ignored := RunCmd(DeleteChain(HappyBox));
      BoxesEdited(old(table), old(Cfg()), hops, naughtyAppUids, [], false, table);
      happyOn := false;
      rc := 0;
    }

    /** One uid of a special-app request: -I or -D of its rule, after the list has been changed. */
    method SpecialApp(uid: int, nice: bool, add: bool) returns (ok: bool)
      requires Valid()
      modifies this`table, this`naughtyAppUids, this`niceAppUids
      ensures Valid()
      ensures ok == SpecialApps(old(if nice then niceAppUids else naughtyAppUids), [uid], add, !nice || old(table).happy.Some?).1
      ensures Cfg() == WithApps(old(Cfg()), nice,
        SpecialApps(old(if nice then niceAppUids else naughtyAppUids), [uid], add, !nice || old(table).happy.Some?).0)
      ensures table.happy.Some? == old(table).happy.Some?
    {
      hide Layout, UidRules;
      BoxFacts(table, Cfg(), hops);
      var list := if nice then niceAppUids else naughtyAppUids;
      if (uid in list) == add {
        return false;
      }
      RemoveFirstNoDups(list, uid);
      NoDupsCons(uid, list);
      list := if add then [uid] + list else RemoveFirst(list, uid);
      var failed := BoxCmd(uid, nice, add);
      if nice {
        niceAppUids := list;
      } else {
        naughtyAppUids := list;
      }
      BoxesEdited(old(table), old(Cfg()), hops, naughtyAppUids, niceAppUids, happyOn, table);
      ok := !failed;
    }

    method BoxCmd(uid: int, nice: bool, add: bool) returns (failed: bool)
      requires GoodBoxes(table, Cfg())
      requires (uid in if nice then niceAppUids else naughtyAppUids) != add
      modifies this`table
      ensures failed == (nice && old(table).happy == None)
      ensures nice ==> table == if failed then old(table) else old(table).(happy := Some(HappyRules(
        if add then [uid] + niceAppUids else RemoveFirst(niceAppUids, uid), happyOn)))
      ensures !nice ==> table == old(table).(penalty := PenaltyRules(
        if add then [uid] + naughtyAppUids else RemoveFirst(naughtyAppUids, uid), happyOn))
    {
      hide UidRules;
      var target := if nice then Return else Reject;
      var box := if nice then HappyBox else PenaltyBox;
      BoxEdit(if nice then niceAppUids else naughtyAppUids, target, When(happyOn, if nice then REJECT_ALL else TO_HAPPY), uid);
      failed := RunCmd(if add then Insert(box, 1, UidRule(uid, target)) else Delete(box, UidRule(uid, target)));
      if failed {
        var ignored := RunCmd(Delete(box, UidRule(uid, target)));
      }
    }

    /** addNaughtyApps, removeNaughtyApps, addNiceApps and removeNiceApps; `None` is a uid that does not parse. */
    method ManipulateSpecialApps(appUids: seq<Option<int>>, nice: bool, add: bool) returns (rc: int)
      requires Valid()
      modifies this
      ensures Valid()
      ensures None in appUids ==> rc == -1 && Cfg() == old(Cfg())
      ensures None !in appUids ==>
        var r := SpecialApps(old(if nice then niceAppUids else naughtyAppUids), Values(appUids), add, !nice || old(table).happy.Some?);
        Cfg() == WithApps(old(Cfg()), nice, r.0) && rc == if r.1 then 0 else -1
      ensures table.happy.Some? == old(table).happy.Some?
      ensures procWrites == old(procWrites) && limits == old(limits)
    {
      hide Layout;
      for i := 0 to |appUids|
        invariant None !in appUids[..i]
      {
        if appUids[i] == None {
          return -1;
        }
      }
      ghost var live := !nice || table.happy.Some?;
      ghost var list0 := if nice then niceAppUids else naughtyAppUids;
      for i := 0 to |appUids|
        invariant Valid() && table.happy.Some? == old(table).happy.Some?
        invariant Cfg() == WithApps(old(Cfg()), nice, if nice then niceAppUids else naughtyAppUids)
        invariant SpecialApps(list0, Values(appUids), add, live) ==
          SpecialApps(if nice then niceAppUids else naughtyAppUids, Values(appUids[i..]), add, live)
        invariant procWrites == old(procWrites) && limits == old(limits)
      {
        ghost var rest := appUids[i..];
        assert rest[0] == appUids[i] && rest[1..] == appUids[i + 1..];
        var ok := SpecialApp(appUids[i].value, nice, add);
        if !ok {
          return -1;
        }
      }
      rc := 0;
    }

    /** Flushes every costly chain except the shared one. */
    method FlushExistingCostlyTables()
      modifies this`table
      ensures table == old(table).(costly := table.costly) && table.costly.Keys == old(table).costly.Keys
      ensures forall n | n in table.costly :: table.costly[n] == if n == SHARED then old(table).costly[n] else []
    {
      var todo := table.costly.Keys - {SHARED};
      while todo != {}
        invariant todo <= table.costly.Keys - {SHARED}
        invariant table == old(table).(costly := table.costly) && table.costly.Keys == old(table).costly.Keys
        invariant forall n | n in table.costly && n in todo :: table.costly[n] == old(table).costly[n]
        invariant forall n | n in table.costly && n !in todo :: table.costly[n] == if n == SHARED then old(table).costly[n] else []
        decreases todo
      {
        var n :| n in todo;
        var ignored := RunCmd(Flush(Costly(n)));
        todo := todo - {n};
      }
    }

    /** From any earlier state: clear the lists, flush the chains, install the basic rules. */
    method EnableBandwidthControl() returns (rc: int)
      modifies this
      ensures rc == 0 <==> SHARED in old(table).costly
      ensures rc == 0 ==> Valid()
      ensures Cfg() == Config([], 0, 0, [], 0, 0, [], [], false)
      ensures table.happy.Some? == old(table).happy.Some? && limits == old(limits)
    {
      hide Layout;
      ResetLists();
      rc := ResetTables();
      if rc == 0 { FreshLayout(table); }
    }

    method ResetLists()
      modifies this
      ensures Cfg() == Config([], 0, 0, [], 0, 0, [], [], false) && hops == []
      ensures table == old(table) && limits == old(limits)
    {
      sharedQuotaIfaces, quotaIfaces, naughtyAppUids, niceAppUids := [], [], [], [];
      globalAlertBytes, globalAlertTetherCount := 0, 0;
      sharedQuotaBytes, sharedAlertBytes := 0, 0;
      hops, happyOn := [], false;
    }

    method ResetTables() returns (rc: int)
      modifies this`table
      ensures rc == 0 <==> SHARED in old(table).costly
      ensures rc == 0 ==> SHARED in table.costly
      ensures rc == 0 ==> table == Table([TRACK], [TRACK], [], [], if old(table).happy.Some? then Some([]) else None, table.costly)
      ensures rc == 0 ==> forall n | n in table.costly :: table.costly[n] == if n == SHARED then [TO_PENALTY] else []
      ensures table.happy.Some? == old(table).happy.Some?
    {
      FlushCleanTables();
      rc := BasicAccounting();
    }

    method FlushCleanTables()
      modifies this`table
      ensures table == Table([], [], [], [], if old(table).happy.Some? then Some([]) else None, table.costly)
      ensures table.costly.Keys == old(table).costly.Keys && forall n | n in table.costly :: table.costly[n] == []
    {
      FlushExistingCostlyTables();
      FlushFixedChains();
    }

    method FlushFixedChains()
      modifies this`table
      ensures table == Table([], [], [], [], if old(table).happy.Some? then Some([]) else None,
        if SHARED in old(table).costly then old(table).costly[SHARED := []] else old(table).costly)
    {
      var ignored := RunCmd(Flush(Input));
      ignored := RunCmd(Flush(Output));
      ignored := RunCmd(Flush(Forward));
      ignored := RunCmd(Flush(HappyBox));
      ignored := RunCmd(Flush(PenaltyBox));
      ignored := RunCmd(Flush(Costly(SHARED)));
    }

    /** Stops at the first command that fails, which only the last one can. */
    method BasicAccounting() returns (rc: int)
      requires table.input == [] && table.output == [] && (SHARED in table.costly ==> table.costly[SHARED] == [])
      modifies this`table
      ensures rc == 0 <==> SHARED in old(table).costly
      ensures table == old(table).(input := [TRACK], output := [TRACK],
        costly := if rc == 0 then old(table).costly[SHARED := [TO_PENALTY]] else old(table).costly)
    {
      assert [] + [TRACK] == [TRACK] && [] + [TO_PENALTY] == [TO_PENALTY];
      var failed := RunCmd(Append(Input, TRACK));
      if failed {
        return -1;
      }
      failed := RunCmd(Append(Output, TRACK));
      if failed {
        return -1;
      }
      failed := RunCmd(Append(Costly(SHARED), TO_PENALTY));
      rc := if failed then -1 else 0;
    }

    /** One request from the framework. It keeps the layout unless it is a quota on an interface called "shared". */
    method Handle(req: Request)
      requires Valid()
      modifies this
      ensures Valid() <==> req.Admissible()
      ensures Cfg() == After(old(Cfg()), old(table).happy.Some?, req)
      ensures table.happy.Some? == LiveAfter(old(table).happy.Some?, req)
      ensures limits == LimitsAfter(old(limits), old(Cfg()), req)
    {
      hide Layout, After, LiveAfter, LimitsAfter;
      if req.SharedQuota? || req.RemoveShared? || req.Quota? || req.RemoveQuota? {
        HandleQuota(req);
      } else {
        HandleOther(req);
      }
    }

    method HandleQuota(req: Request)
      requires Valid() && (req.SharedQuota? || req.RemoveShared? || req.Quota? || req.RemoveQuota?)
      modifies this
      ensures Valid() <==> req.Admissible()
      ensures Cfg() == After(old(Cfg()), old(table).happy.Some?, req)
      ensures table.happy.Some? == LiveAfter(old(table).happy.Some?, req)
      ensures limits == LimitsAfter(old(limits), old(Cfg()), req)
    {
      hide Layout, WithShared, WithoutShared, WithQuota;
      NoneCalledShared(table, Cfg(), hops);
      var rc := 0;
      match req
      case SharedQuota(iface, bytes) => rc := SetInterfaceSharedQuota(iface, bytes);
      case RemoveShared(iface) => rc := RemoveInterfaceSharedQuota(iface);
      case Quota(iface, bytes) => rc := SetInterfaceQuota(iface, bytes);
      case RemoveQuota(iface) => rc := RemoveInterfaceQuota(iface);
    }

    method HandleOther(req: Request)
      requires Valid() && !(req.SharedQuota? || req.RemoveShared? || req.Quota? || req.RemoveQuota?)
      modifies this
      ensures Valid() <==> req.Admissible()
      ensures Cfg() == After(old(Cfg()), old(table).happy.Some?, req)
      ensures table.happy.Some? == LiveAfter(old(table).happy.Some?, req)
      ensures limits == LimitsAfter(old(limits), old(Cfg()), req)
    {
      hide Layout, WithApps, SpecialApps;
      var rc := 0;
      match req
      case GlobalAlert(bytes) => rc := SetGlobalAlert(bytes);
      case DropGlobalAlert => rc := RemoveGlobalAlert();
      case TetherUp => rc := SetGlobalAlertInForwardChain();
      case TetherDown => rc := RemoveGlobalAlertInForwardChain();
      case SharedAlert(bytes) => rc := SetSharedAlert(bytes);
      case DropSharedAlert => rc := RemoveSharedAlert();
      case Alert(iface, bytes) => rc := SetInterfaceAlert(iface, bytes);
      case DropAlert(iface) => rc := RemoveInterfaceAlert(iface);
      case HappyOn => rc := EnableHappyBox();
      case HappyOff => rc := DisableHappyBox();
      case Apps(uids, nice, add) => rc := ManipulateSpecialApps(uids, nice, add);
    }

    /**
     * Every run: after enabling and any sequence of requests, with or without errors, every packet meets exactly the
     * policy that the lists describe, and lists and kernel values are those of the run. Only a quota set on an interface
     * called "shared" ends this; the run is followed up to and including the first such request.
     */
    method Serve(reqs: seq<Request>) returns (rc: int, served: nat)
      modifies this
      ensures rc == 0 <==> SHARED in old(table).costly
      ensures rc == 0 ==> served == Followed(reqs) && (Valid() <==> forall r | r in reqs :: r.Admissible())
      ensures rc == 0 ==>
        RunState(Cfg(), table.happy.Some?, limits) == RunAll(RunState(FRESH, old(table).happy.Some?, old(limits)), reqs[..served])
      ensures rc == 0 ==>
        BandwidthBook.Matches(BandwidthBook.BookOf(old(table).happy.Some?, reqs[..served]), Cfg(), table.happy.Some?)
      ensures rc == 0 && Valid() ==> forall p: Packet, d: nat | d >= 3 ::
        Rejects(table, Get(table, Top(p.dir)), p, d) <==> Policy(Cfg(), p)
      ensures rc == 0 && Valid() ==> forall p: Packet, d: nat, q | d >= 3 && Penalised(Cfg(), p) && q in quotaIfaces ::
        QuotaRule(q.iface) !in Reached(table, Get(table, Top(p.dir)), p, d)
    {
      hide Layout, After, LimitsAfter, Followed, BandwidthBook.Matches, BandwidthBook.BookOf;
      served := 0;
      rc := EnableBandwidthControl();
      if rc != 0 {
        return;
      }
      ghost var start := RunState(Cfg(), table.happy.Some?, limits);
      var kept := true;
      while served < |reqs| && kept
        invariant served <= |reqs| && (Valid() <==> kept)
        invariant RunState(Cfg(), table.happy.Some?, limits) == RunAll(start, reqs[..served])
        invariant kept ==> forall i | 0 <= i < served :: reqs[i].Admissible()
        invariant !kept ==> served > 0 && !reqs[served - 1].Admissible() && forall i | 0 <= i < served - 1 :: reqs[i].Admissible()
      {
        assert reqs[..served + 1][..served] == reqs[..served];
        Handle(reqs[served]);
        kept := reqs[served].Admissible();
        served := served + 1;
      }
      FollowedIs(reqs, served);
      BandwidthBook.RunMatches(old(table).happy.Some?, old(limits), reqs[..served]);
      if kept {
        Obeyed();
      }
    }

    /** What a table laid out for the lists means for packets. */
    lemma Obeyed()
      requires Valid()
      ensures forall p: Packet, d: nat | d >= 3 :: Rejects(table, Get(table, Top(p.dir)), p, d) <==> Policy(Cfg(), p)
      ensures forall p: Packet, d: nat, q | d >= 3 && Penalised(Cfg(), p) && q in quotaIfaces ::
        QuotaRule(q.iface) !in Reached(table, Get(table, Top(p.dir)), p, d)
    {
      hide Layout;
      forall p: Packet, d: nat | d >= 3
        ensures Rejects(table, Get(table, Top(p.dir)), p, d) <==> Policy(Cfg(), p)
      {
        WalkEqualsPolicy(table, Cfg(), hops, p, d);
      }
      forall p: Packet, d: nat, q | d >= 3 && Penalised(Cfg(), p) && q in quotaIfaces
        ensures QuotaRule(q.iface) !in Reached(table, Get(table, Top(p.dir)), p, d)
      {
        PenalisedSparesOwnQuota(table, Cfg(), hops, p, d);
      }
    }
  }

  /** The requests up to and including the first that is not admissible. */
  function Followed(reqs: seq<Request>): (n: nat)
    ensures n <= |reqs|
  {
    if reqs == [] then 0 else if !reqs[0].Admissible() then 1 else 1 + Followed(reqs[1..])
  }

  lemma {:induction false} FollowedIs(reqs: seq<Request>, n: nat)
    requires n <= |reqs| && forall i | 0 <= i < n - 1 :: reqs[i].Admissible()
    requires n == |reqs| || (n > 0 && !reqs[n - 1].Admissible())
    ensures Followed(reqs) == n
    decreases n
  {
    if n > 1 {
      FollowedIs(reqs[1..], n - 1);
    }
  }
}
