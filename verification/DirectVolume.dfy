/**
 * vold's DirectVolume: a disk and its partitions are announced by separate events in any order; the volume
 * becomes usable when the last partition of the disk has been seen.
 */
module DirectVolume {
  import opened Util

  const MAX_PARTITIONS: nat := 32

  datatype State = NoMedia | Idle | Pending | Mounted | Formatting | Other(code: int)

  /** What `1 << i` gives for i >= 32, which C leaves open: nothing, or the shift taken modulo 32. */
  datatype Shift = Zero | Modulo

  /** A 32-bit word is modelled by the set of its bit positions. */
  function Bit(i: nat, shift: Shift): set<nat> {
    if i < 32 then {i} else if shift == Zero then {} else {i % 32}
  }

  function Mask(n: int, shift: Shift): set<nat> {
    if n < 1 then {} else Mask(n - 1, shift) + Bit(n, shift)
  }

  /** `mounts` counts the mounts that were tried; `works` is whether one succeeds. */
  datatype Vol = Vol(
    major: int,
    minor: int,
    numParts: int,
    pending: set<nat>,
    minors: seq<int>,
    state: State,
    retryMount: bool,
    mounts: nat,
    works: bool)

  /** A partition announcement; a missing PARTN is read as partition 1. */
  datatype Part = Part(major: int, minor: int, partn: Option<int>)

  function Number(e: Part): int { if e.partn.Some? then e.partn.value else 1 }

  function Entered(v: Vol, s: State): Vol {
    if v.state == s then v
    else v.(state := s, retryMount := if v.state == Pending && s != Idle then false else v.retryMount)
  }

  function Count(nparts: Option<int>): int { if nparts.Some? then nparts.value else 1 }

  function Armed(v: Vol, n: int, shift: Shift): Vol { v.(numParts := n, pending := Mask(n, shift)) }

  function DiskAdded(v: Vol, major: int, minor: int, nparts: Option<int>, shift: Shift): Vol {
    var n := Count(nparts);
    Entered(Armed(v.(major := major, minor := minor), n, shift), if n == 0 then Idle else Pending)
  }

  function DiskChanged(v: Vol, major: int, minor: int, nparts: Option<int>, shift: Shift): Vol {
    if major != v.major || minor != v.minor then v else
    var n := Count(nparts);
    var w := Armed(v, n, shift);
    if v.state == Formatting then w else Entered(w, if n == 0 then Idle else Pending)
  }

  /** The announcements that count: a possible number and the major of the disk. */
  predicate Counts(v: Vol, e: Part) { 1 <= Number(e) <= MAX_PARTITIONS && e.major == v.major }

  /** mountVol: refused unless idle, remembered while pending. */
  function MountRequested(v: Vol): Vol {
    if v.state == Idle then v.(mounts := v.mounts + 1, state := if v.works then Mounted else Idle)
    else if v.state == Pending then v.(retryMount := true)
    else v
  }

  function Arrived(v: Vol): Vol {
    if v.pending != {} || v.state == Formatting then v else
    var w := Entered(v, Idle);
    if w.retryMount then MountRequested(w.(retryMount := false)) else w
  }

  function PartAdded(v: Vol, e: Part, shift: Shift): Vol
    requires |v.minors| == MAX_PARTITIONS
  {
    var k := Number(e);
    if !(1 <= k <= MAX_PARTITIONS) then v else
    var w := if k > v.numParts then v.(numParts := k) else v;
    if e.major != v.major then w else
    var w1 := if k < MAX_PARTITIONS then w.(minors := w.minors[k - 1 := e.minor]) else w;
    Arrived(w1.(pending := w1.pending - Bit(k, shift)))
  }

  function Run(v: Vol, es: seq<Part>, shift: Shift): (r: Vol)
    requires |v.minors| == MAX_PARTITIONS
    ensures |r.minors| == MAX_PARTITIONS && r.major == v.major
    decreases |es|
  {
    if es == [] then v else PartAdded(Run(v, es[..|es| - 1], shift), es[|es| - 1], shift)
  }

  // ---- The barrier -----------------------------------------------------------------------

  ghost predicate Seen(major: int, es: seq<Part>, k: int) { exists e :: e in es && Number(e) == k && e.major == major }

  ghost predicate AllSeen(major: int, es: seq<Part>, n: int) { forall k | 1 <= k <= n :: Seen(major, es, k) }

  /** The minor last reported for partition `k`. */
  function Latest(major: int, es: seq<Part>, k: int): Option<int>
    decreases |es|
  {
    if es == [] then None
    else
      var e := es[|es| - 1];
      if Number(e) == k && e.major == major then Some(e.minor) else Latest(major, es[..|es| - 1], k)
  }

  /** The highest partition number announced, whatever its major. */
  function Highest(n: int, es: seq<Part>): (r: int)
    ensures r >= n
    ensures forall e | e in es && 1 <= Number(e) <= MAX_PARTITIONS :: Number(e) <= r
    decreases |es|
  {
    if es == [] then n
    else
      var e, h := es[|es| - 1], Highest(n, es[..|es| - 1]);
      assert es == es[..|es| - 1] + [e];
      if 1 <= Number(e) <= MAX_PARTITIONS && Number(e) > h then Number(e) else h
  }

  lemma {:induction false} MaskBits(n: int, shift: Shift)
    requires n <= 31
    ensures forall k: nat :: k in Mask(n, shift) <==> 1 <= k <= n
  {
    if n >= 1 { MaskBits(n - 1, shift); }
  }

  lemma SeenStep(major: int, es: seq<Part>, k: int)
    requires es != []
    ensures var e := es[|es| - 1]; Seen(major, es, k) <==> Seen(major, es[..|es| - 1], k) || (Number(e) == k && e.major == major)
  {
    var init, e := es[..|es| - 1], es[|es| - 1];
    assert es == init + [e];
    if Seen(major, es, k) && !(Number(e) == k && e.major == major) {
      var f :| f in es && Number(f) == k && f.major == major;
      assert f in init;
    }
  }

  lemma PartAddedEffect(v: Vol, e: Part, shift: Shift)
    requires |v.minors| == MAX_PARTITIONS
    ensures var r, k := PartAdded(v, e, shift), Number(e);
      && r.pending == (if Counts(v, e) then v.pending - Bit(k, shift) else v.pending)
      && r.minors == (if Counts(v, e) && k < MAX_PARTITIONS then v.minors[k - 1 := e.minor] else v.minors)
      && r.numParts == (if 1 <= k <= MAX_PARTITIONS && k > v.numParts then k else v.numParts)
  {
  }

  /** What an announcement does to the state and to a mount that waits. */
  lemma PartAddedState(v: Vol, e: Part, shift: Shift)
    requires |v.minors| == MAX_PARTITIONS && v.state != Formatting
    ensures var r := PartAdded(v, e, shift);
      if !Counts(v, e) || r.pending != {} then r.state == v.state && r.retryMount == v.retryMount && r.mounts == v.mounts
      else
        && r.state == (if v.retryMount && v.works then Mounted else Idle) && !r.retryMount
        && r.mounts == v.mounts + if v.retryMount then 1 else 0
  {
  }

  lemma {:induction false} PendingAfter(v: Vol, n: int, es: seq<Part>, shift: Shift)
    requires 1 <= n <= 31 && |v.minors| == MAX_PARTITIONS && v.pending == Mask(n, shift)
    ensures forall k: nat :: k in Run(v, es, shift).pending <==> 1 <= k <= n && !Seen(v.major, es, k)
    decreases |es|
  {
    hide PartAdded;
    if es == [] {
      MaskBits(n, shift);
    } else {
      var init, e := es[..|es| - 1], es[|es| - 1];
      PendingAfter(v, n, init, shift);
      PartAddedEffect(Run(v, init, shift), e, shift);
      forall k: nat ensures k in Run(v, es, shift).pending <==> 1 <= k <= n && !Seen(v.major, es, k) {
        SeenStep(v.major, es, k);
      }
    }
  }

  function Recorded(v: Vol, latest: Option<int>, k: int): int
    requires |v.minors| == MAX_PARTITIONS && 1 <= k <= 31
  {
    if latest.Some? then latest.value else v.minors[k - 1]
  }

  /** The recorded minors are the latest reported, and the number of partitions the highest announced. */
  lemma {:induction false} MinorsAfter(v: Vol, es: seq<Part>, shift: Shift)
    requires |v.minors| == MAX_PARTITIONS
    ensures forall k | 1 <= k <= 31 :: Run(v, es, shift).minors[k - 1] == Recorded(v, Latest(v.major, es, k), k)
    ensures Run(v, es, shift).numParts == Highest(v.numParts, es)
    decreases |es|
  {
    hide PartAdded;
    if es != [] {
      var init, e := es[..|es| - 1], es[|es| - 1];
      MinorsAfter(v, init, shift);
      PartAddedEffect(Run(v, init, shift), e, shift);
    }
  }

  /** The count of partitions stays what the disk announced exactly when no higher number was announced, on any major. */
  lemma {:induction false} HighestIsAnnounced(n: int, es: seq<Part>)
    ensures Highest(n, es) == n <==> forall e | e in es :: 1 <= Number(e) <= 32 ==> Number(e) <= n
    decreases |es|
  {
    if es != [] {
      var init, e := es[..|es| - 1], es[|es| - 1];
      assert es == init + [e];
      HighestIsAnnounced(n, init);
    }
  }

  lemma {:induction false} LatestIffSeen(major: int, es: seq<Part>, k: int)
    ensures Latest(major, es, k).Some? <==> Seen(major, es, k)
    decreases |es|
  {
    if es != [] {
      SeenStep(major, es, k);
      LatestIffSeen(major, es[..|es| - 1], k);
    }
  }

  /** An announcement that counts comes when all partitions have been seen already. */
  ghost predicate Late(v: Vol, n: int, es: seq<Part>) {
    exists i :: 0 <= i < |es| && AllSeen(v.major, es[..i], n) && Counts(v, es[i])
  }

  lemma LateStep(v: Vol, n: int, es: seq<Part>)
    requires es != []
    ensures var init, e := es[..|es| - 1], es[|es| - 1];
      Late(v, n, es) <==> Late(v, n, init) || (AllSeen(v.major, init, n) && Counts(v, e))
  {
    hide AllSeen, Counts;
    var init := es[..|es| - 1];
    assert forall i | 0 <= i < |init| :: init[..i] == es[..i];
    if Late(v, n, init) {
      var i :| 0 <= i < |init| && AllSeen(v.major, init[..i], n) && Counts(v, init[i]);
      assert es[..i] == init[..i] && es[i] == init[i];
    }
  }

  /** A mount that waited is tried and succeeds, and no announcement comes after it. */
  ghost predicate StaysMounted(v: Vol, n: int, es: seq<Part>) { v.retryMount && v.works && !Late(v, n, es) }

  /**
   * A disk with n partitions, events in any order, with repeats and strays: the volume leaves Pending exactly once all
   * of 1..n have been seen on the disk's major, and a mount that waited for it is tried once, at that event. When it
   * succeeds the volume is Mounted, until another announcement that counts sets it to Idle over the mount.
   */
  lemma {:induction false} IdleIffAllSeen(v: Vol, n: int, es: seq<Part>, shift: Shift)
    requires 1 <= n <= 31 && |v.minors| == MAX_PARTITIONS && v.pending == Mask(n, shift) && v.state == Pending
    ensures Run(v, es, shift).state ==
      if !AllSeen(v.major, es, n) then Pending else if StaysMounted(v, n, es) then Mounted else Idle
    ensures Run(v, es, shift).mounts == v.mounts + if AllSeen(v.major, es, n) && v.retryMount then 1 else 0
    ensures Run(v, es, shift).retryMount == (v.retryMount && !AllSeen(v.major, es, n))
    decreases |es|
  {
    hide AllSeen, Late, PartAdded, Counts;
    if es == [] {
      NoneSeen(v, n);
    } else {
      var init, e := es[..|es| - 1], es[|es| - 1];
      IdleIffAllSeen(v, n, init, shift);
      WorksKept(v, init, shift);
      PartAddedState(Run(v, init, shift), e, shift);
      SameCounts(v, Run(v, init, shift), e);
      EmptyIffAllSeen(v, n, init, shift);
      EmptyIffAllSeen(v, n, es, shift);
      LateStep(v, n, es);
      if !Counts(v, e) {
        SameSeen(v.major, es, n);
      } else if AllSeen(v.major, init, n) {
        StillSeen(v.major, es, n);
      } else {
        NotLateYet(v, n, init);
      }
    }
  }

  lemma SameCounts(v: Vol, w: Vol, e: Part)
    requires v.major == w.major
    ensures Counts(v, e) == Counts(w, e)
    ensures !Counts(v, e) ==> !(1 <= Number(e) <= MAX_PARTITIONS && e.major == v.major)
  {
  }

  lemma NoneSeen(v: Vol, n: int)
    requires n >= 1
    ensures !AllSeen(v.major, [], n) && !Late(v, n, [])
  {
    assert !Seen(v.major, [], 1);
  }

  lemma StillSeen(major: int, es: seq<Part>, n: int)
    requires es != [] && AllSeen(major, es[..|es| - 1], n)
    ensures AllSeen(major, es, n)
  {
    forall k | 1 <= k <= n ensures Seen(major, es, k) { SeenStep(major, es, k); }
  }

  /** Nothing is late while a partition is missing. */
  lemma {:induction false} NotLateYet(v: Vol, n: int, es: seq<Part>)
    requires !AllSeen(v.major, es, n)
    ensures !Late(v, n, es)
    decreases |es|
  {
    hide AllSeen, Late;
    if es == [] {
      NothingLate(v, n);
    } else {
      var init := es[..|es| - 1];
      if AllSeen(v.major, init, n) {
        StillSeen(v.major, es, n);
      }
      NotLateYet(v, n, init);
      LateStep(v, n, es);
    }
  }

  lemma NothingLate(v: Vol, n: int)
    ensures !Late(v, n, [])
  {
  }

  lemma {:induction false} WorksKept(v: Vol, es: seq<Part>, shift: Shift)
    requires |v.minors| == MAX_PARTITIONS
    ensures Run(v, es, shift).works == v.works
    decreases |es|
  {
    if es != [] { WorksKept(v, es[..|es| - 1], shift); }
  }

  /** A disk of one partition that is announced twice: the mount that waited has succeeded, and the volume reads as idle. */
  lemma AnnouncedAgain(v: Vol, e: Part, shift: Shift)
    requires |v.minors| == MAX_PARTITIONS && v.pending == Mask(1, shift) && v.state == Pending && v.retryMount && v.works
    requires Number(e) == 1 && e.major == v.major
    ensures Run(v, [e], shift).state == Mounted && Run(v, [e, e], shift).state == Idle && Run(v, [e, e], shift).mounts == v.mounts + 1
  {
    assert [e, e][..1] == [e] && [e][..0] == [] && Run(v, [], shift) == v;
    assert Mask(0, shift) == {} && Mask(1, shift) == {1};
    var w := Run(v, [e], shift);
    assert w == PartAdded(v, e, shift) && w.pending == {};
    assert Run(v, [e, e], shift) == PartAdded(w, e, shift);
  }

  lemma EmptyIffAllSeen(v: Vol, n: int, es: seq<Part>, shift: Shift)
    requires 1 <= n <= 31 && |v.minors| == MAX_PARTITIONS && v.pending == Mask(n, shift)
    ensures Run(v, es, shift).pending == {} <==> AllSeen(v.major, es, n)
  {
    PendingAfter(v, n, es, shift);
    var r := Run(v, es, shift);
    if r.pending == {} {
      forall k | 1 <= k <= n ensures Seen(v.major, es, k) { assert (k as nat) !in r.pending; }
    }
    if AllSeen(v.major, es, n) {
      assert forall k :: k !in r.pending;
    }
  }

  lemma SameSeen(major: int, es: seq<Part>, n: int)
    requires es != [] && n <= 31
    requires !(1 <= Number(es[|es| - 1]) <= MAX_PARTITIONS && es[|es| - 1].major == major)
    ensures AllSeen(major, es, n) <==> AllSeen(major, es[..|es| - 1], n)
  {
    var init := es[..|es| - 1];
    forall k | 1 <= k <= n ensures Seen(major, es, k) <==> Seen(major, init, k) { SeenStep(major, es, k); }
  }

  /** The volume is usable: all partitions have been seen, and it is not mounted for a request that waited. */
  ghost predicate Ready(v: Vol, major: int, minor: int, n: int, es: seq<Part>, shift: Shift) {
    AllSeen(major, es, n) && !StaysMounted(DiskAdded(v, major, minor, Some(n), shift), n, es)
  }

  /** The arrival of a disk re-arms the barrier whatever went before. */
  lemma DiskArrives(v: Vol, major: int, minor: int, n: int, es: seq<Part>, shift: Shift)
    requires 1 <= n <= 31 && |v.minors| == MAX_PARTITIONS
    ensures var r := Run(DiskAdded(v, major, minor, Some(n), shift), es, shift);
      && (r.state == Pending <==> !AllSeen(major, es, n))
      && (r.state == Idle <==> Ready(v, major, minor, n, es, shift))
      && (AllSeen(major, es, n) ==> forall k | 1 <= k <= n :: Some(r.minors[k - 1]) == Latest(major, es, k))
      && r.numParts == Highest(n, es)
  {
    var d := DiskAdded(v, major, minor, Some(n), shift);
    IdleIffAllSeen(d, n, es, shift);
    MinorsAfter(d, es, shift);
    if AllSeen(major, es, n) {
      forall k | 1 <= k <= n ensures Some(Run(d, es, shift).minors[k - 1]) == Latest(major, es, k) {
        assert Seen(major, es, k);
        LatestIffSeen(major, es, k);
      }
    }
  }

  /**
   * What the arrival of a disk does by itself: its numbers are taken over, a bit is set for each partition, the volume is
   * usable at once if there is none, and a mount that waits goes on waiting. Partition minors are not forgotten.
   */
  lemma DiskTaken(v: Vol, major: int, minor: int, n: int, shift: Shift)
    requires n <= 31
    ensures var r := DiskAdded(v, major, minor, Some(n), shift);
      && r.major == major && r.minor == minor && r.numParts == n && r.minors == v.minors
      && r.state == (if n == 0 then Idle else Pending)
      && r.retryMount == v.retryMount && r.mounts == v.mounts
      && forall k: nat :: k in r.pending <==> 1 <= k <= n
  {
    MaskBits(n, shift);
  }

  /** Missing counts and numbers are read as one. */
  lemma MissingIsOne(v: Vol, major: int, minor: int, shift: Shift)
    requires |v.minors| == MAX_PARTITIONS
    ensures DiskAdded(v, major, minor, None, shift) == DiskAdded(v, major, minor, Some(1), shift)
    ensures DiskChanged(v, major, minor, None, shift) == DiskChanged(v, major, minor, Some(1), shift)
    ensures PartAdded(v, Part(major, minor, None), shift) == PartAdded(v, Part(major, minor, Some(1)), shift)
  {
    hide Arrived, Bit, Entered, Mask;
  }

  /**
   * A change of the disk: nothing for another disk, and for its own the barrier holds as after an arrival, except that a
   * volume being formatted stays so while it waits for the partitions.
   */
  lemma DiskChanges(v: Vol, major: int, minor: int, n: int, es: seq<Part>, shift: Shift)
    requires 1 <= n <= 31 && |v.minors| == MAX_PARTITIONS
    ensures var r := Run(DiskChanged(v, major, minor, Some(n), shift), es, shift);
      if major != v.major || minor != v.minor then r == Run(v, es, shift)
      else
        && (v.state != Formatting ==> r == Run(DiskAdded(v, major, minor, Some(n), shift), es, shift))
        && (v.state == Formatting ==> r.state == Formatting)
        && (r.pending == {} <==> AllSeen(major, es, n))
  {
    hide PartAdded;
    var c := DiskChanged(v, major, minor, Some(n), shift);
    if major == v.major && minor == v.minor {
      EmptyIffAllSeen(c, n, es, shift);
      if v.state == Formatting { FormattingStays(c, es, shift); }
    }
  }

  /** A mount asked for while the partitions are awaited is tried once, when the last of them has been seen. */
  lemma MountWaits(v: Vol, n: int, es: seq<Part>, shift: Shift)
    requires 1 <= n <= 31 && |v.minors| == MAX_PARTITIONS && v.pending == Mask(n, shift) && v.state == Pending
    ensures var r := Run(MountRequested(v), es, shift);
      && r.mounts == v.mounts + (if AllSeen(v.major, es, n) then 1 else 0)
      && (r.retryMount <==> !AllSeen(v.major, es, n))
  {
    IdleIffAllSeen(MountRequested(v), n, es, shift);
  }

  /** A mount is tried only on an idle volume; leaving Pending for anything but Idle drops one that waits. */
  lemma MountOnlyIdle(v: Vol, s: State)
    ensures MountRequested(v).mounts == v.mounts + if v.state == Idle then 1 else 0
    ensures MountRequested(v).state == if v.state == Idle && v.works then Mounted else v.state
    ensures MountRequested(v).retryMount <==> v.retryMount || v.state == Pending
    ensures Entered(v, s).state == s && Entered(v, s) == v.(state := s, retryMount := Entered(v, s).retryMount)
    ensures Entered(v, s).retryMount <==> v.retryMount && (v.state == Pending ==> s == Pending || s == Idle)
  {
  }

  /** While formatting, a change re-arms the mask but no event leaves the state. */
  lemma {:induction false} FormattingStays(v: Vol, es: seq<Part>, shift: Shift)
    requires |v.minors| == MAX_PARTITIONS && v.state == Formatting
    ensures Run(v, es, shift).state == Formatting
    decreases |es|
  {
    if es != [] { FormattingStays(v, es[..|es| - 1], shift); }
  }

  /**
   * Partition 32 is beyond the recorded minors. On a disk announcing 32 partitions it is waited for exactly when shifts
   * wrap: otherwise its bit does not exist.
   */
  lemma ThirtyTwoPartitions(shift: Shift)
    ensures 0 in Mask(32, shift) <==> shift == Modulo
    ensures forall k: nat | 1 <= k <= 31 :: k in Mask(32, shift)
  {
    MaskBits(31, shift);
  }

  // ---- The volume object -----------------------------------------------------------------

  datatype Dev = Dev(major: int, minor: int)

  class DirectVolume {
    const shift: Shift
    const partMinors: array<int>
    var diskMajor: int
    var diskMinor: int
    var diskNumParts: int
    var pendingPartMap: set<nat>
    var state: State
    var retryMount: bool
    var mounts: nat
    const works: bool

    ghost predicate Valid() { partMinors.Length == MAX_PARTITIONS }

    ghost function Value(): Vol
      reads this, partMinors
    {
      Vol(diskMajor, diskMinor, diskNumParts, pendingPartMap, partMinors[..], state, retryMount, mounts, works)
    }

    constructor (target: Shift, mountWorks: bool)
      ensures Valid() && shift == target
      ensures Value() == Vol(-1, -1, 0, {}, seq(MAX_PARTITIONS, _ => -1), NoMedia, false, 0, mountWorks)
    {
      shift, works := target, mountWorks;
      partMinors := new int[MAX_PARTITIONS](_ => -1);
      diskMajor, diskMinor, diskNumParts, pendingPartMap := -1, -1, 0, {};
      state, retryMount, mounts := NoMedia, false, 0;
    }

    method SetState(s: State)
      modifies this
      ensures Value() == Entered(old(Value()), s)
    {
      if state == s { return; }
      if state == Pending && s != Idle {
        retryMount := false;
      }
      state := s;
    }

    /** mountVol: the device checks and mounts on the way are one outcome. */
    method MountVol()
      modifies this
      ensures Value() == MountRequested(old(Value()))
    {
      if state == NoMedia { return; }
      if state != Idle {
        if state == Pending {
          retryMount := true;
        }
        return;
      }
      mounts := mounts + 1;
      if works {
        SetState(Mounted);
      }
    }

    method PartMask(n: int) returns (m: set<nat>)
      ensures m == Mask(n, shift)
    {
      m := {};
      var i := 1;
      while i <= n
        invariant i == 1 || 1 < i <= n + 1
        invariant m == Mask(i - 1, shift)
        decreases n - i
      {
        m := m + Bit(i, shift);
        i := i + 1;
      }
    }

    method HandleDiskAdded(major: int, minor: int, nparts: Option<int>)
      modifies this
      ensures Value() == DiskAdded(old(Value()), major, minor, nparts, shift)
    {
      diskMajor, diskMinor := major, minor;
      diskNumParts := if nparts.Some? then nparts.value else 1;
      pendingPartMap := PartMask(diskNumParts);
      if diskNumParts == 0 {
        SetState(Idle);
      } else {
        SetState(Pending);
      }
    }

    method HandlePartitionAdded(e: Part)
      requires Valid()
      modifies this, partMinors
      ensures Value() == PartAdded(old(Value()), e, shift)
    {
      var k := if e.partn.Some? then e.partn.value else 1;
      if k > MAX_PARTITIONS || k < 1 { return; }
      if k > diskNumParts {
        diskNumParts := k;
      }
      if e.major != diskMajor { return; }
      if k < MAX_PARTITIONS {
        partMinors[k - 1] := e.minor;
      }
      pendingPartMap := pendingPartMap - Bit(k, shift);
      if pendingPartMap == {} {
        if state != Formatting {
          SetState(Idle);
          if retryMount {
            retryMount := false;
            MountVol();
          }
        }
      }
    }

    method HandleDiskChanged(major: int, minor: int, nparts: Option<int>)
      modifies this
      ensures Value() == DiskChanged(old(Value()), major, minor, nparts, shift)
    {
      if major != diskMajor || minor != diskMinor { return; }
      diskNumParts := if nparts.Some? then nparts.value else 1;
      pendingPartMap := PartMask(diskNumParts);
      if state != Formatting {
        if diskNumParts == 0 {
          SetState(Idle);
        } else {
          SetState(Pending);
        }
      }
    }

    /** A whole arrival: the disk, then its partitions; the framework is told after every event that leaves it Idle. */
    method Arrive(major: int, minor: int, n: int, es: seq<Part>) returns (told: seq<bool>)
      requires Valid() && 1 <= n <= 31
      modifies this, partMinors
      ensures Value() == Run(DiskAdded(old(Value()), major, minor, Some(n), shift), es, shift)
      ensures |told| == 1 + |es| && forall i | 0 <= i <= |es| :: told[i] <==> Ready(old(Value()), major, minor, n, es[..i], shift)
    {
      hide AllSeen, PartAdded, DiskAdded, Highest, Latest, Ready;
      ghost var was := Value();
      HandleDiskAdded(major, minor, Some(n));
      ghost var d := Value();
      told := [state == Idle];
      DiskArrives(was, major, minor, n, [], shift);
      assert es[..0] == [];
      for i := 0 to |es|
        invariant Value() == Run(d, es[..i], shift)
        invariant |told| == i + 1
        invariant forall j | 0 <= j <= i :: told[j] <==> Ready(was, major, minor, n, es[..j], shift)
      {
        assert es[..i + 1][..i] == es[..i];
        HandlePartitionAdded(es[i]);
        DiskArrives(was, major, minor, n, es[..i + 1], shift);
        told := told + [state == Idle];
      }
      assert es[..|es|] == es;
    }

    /**
     * The partitions to try, in order; the disk itself when it has none. The count may exceed what was filled in.
     * `overruns`: an element past the 32 minors is read, and the rest of the call is not followed.
     */
    method GetDeviceNodes(devs: array<Dev>, partIdx: int) returns (n: int, overruns: bool)
      requires Valid() && 1 <= devs.Length
      modifies devs
      ensures overruns <==>
        if partIdx == -1 then diskNumParts > MAX_PARTITIONS && devs.Length > MAX_PARTITIONS else !(1 <= partIdx <= MAX_PARTITIONS)
      ensures partIdx == -1 && diskNumParts == 0 ==> n == 1 && devs[0] == Dev(diskMajor, diskMinor)
      ensures partIdx == -1 && diskNumParts != 0 && !overruns ==> n == diskNumParts
      ensures partIdx == -1 ==> forall i | 0 <= i < diskNumParts && i < devs.Length && i < MAX_PARTITIONS ::
        devs[i] == Dev(diskMajor, partMinors[i])
      ensures partIdx != -1 && !overruns ==> n == 1 && devs[0] == Dev(diskMajor, partMinors[partIdx - 1])
    {
      n, overruns := 0, false;
      if partIdx == -1 {
        if diskNumParts == 0 {
          devs[0] := Dev(diskMajor, diskMinor);
          return 1, false;
        }
        var i := 0;
        while i < diskNumParts
          invariant 0 <= i <= devs.Length && i <= MAX_PARTITIONS && (i == 0 || i <= diskNumParts)
          invariant forall j | 0 <= j < i :: devs[j] == Dev(diskMajor, partMinors[j])
        {
          if i == devs.Length { break; }
          if i == MAX_PARTITIONS {
            return 0, true;
          }
          devs[i] := Dev(diskMajor, partMinors[i]);
          i := i + 1;
        }
        return diskNumParts, false;
      }
      if !(1 <= partIdx <= MAX_PARTITIONS) {
        return 0, true;
      }
      devs[0] := Dev(diskMajor, partMinors[partIdx - 1]);
      return 1, false;
    }
  }
}
