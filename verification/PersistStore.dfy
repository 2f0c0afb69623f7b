/**
 * vold's persistent fields: a table of key/value entries, kept on disk in two copies that
 * are written alternately so that a crash never loses the last saved table.
 */
module PersistStore {
  import opened Util

  // ---- The two copies on disk ------------------------------------------------------------

  /** A 4K region: `Valid` when it starts with the magic number. */
  datatype Copy<T> = Erased | Valid(table: T)

  datatype Copies<T> = Copies(first: Copy<T>, second: Copy<T>)

  /** How far a save got before it returned or the device crashed. */
  datatype Cut = NotStarted | AfterWrite | Complete

  datatype Save<T> = Save(table: T, cut: Cut)

  /** load_persistent_data: the first valid copy, or an empty table. */
  function Load<T>(c: Copies<T>, empty: T): T {
    if c.first.Valid? then c.first.table else if c.second.Valid? then c.second.table else empty
  }

  /** save_persistent_data: write the copy that is not current, then erase the current one. */
  function SaveStep<T>(c: Copies<T>, ev: Save<T>): Copies<T> {
    match ev.cut
    case NotStarted => c
    case AfterWrite => if c.first.Valid? then c.(second := Valid(ev.table)) else c.(first := Valid(ev.table))
    case Complete => if c.first.Valid? then Copies(Erased, Valid(ev.table)) else Copies(Valid(ev.table), Erased)
  }

  function Run<T>(c: Copies<T>, evs: seq<Save<T>>): Copies<T>
    decreases evs
  {
    if evs == [] then c else Run(SaveStep(c, evs[0]), evs[1..])
  }

  /** Whether a save takes effect: decided when it happens, by its cut and the copy it found current. */
  predicate TakesEffect<T>(c: Copies<T>, ev: Save<T>) {
    ev.cut == Complete || (ev.cut == AfterWrite && !c.first.Valid?)
  }

  /** One save, completed or cut short, shows either the old or the new table. */
  lemma SaveIsAtomic<T>(c: Copies<T>, ev: Save<T>, empty: T)
    ensures Load(SaveStep(c, ev), empty) == if TakesEffect(c, ev) then ev.table else Load(c, empty)
  {
  }

  /** The value of an atomic register fed with the saves that took effect. */
  function Register<T>(c: Copies<T>, evs: seq<Save<T>>, value: T): T
    decreases evs
  {
    if evs == [] then value
    else Register(SaveStep(c, evs[0]), evs[1..], if TakesEffect(c, evs[0]) then evs[0].table else value)
  }

  /** Over every history of saves and crashes the store is an atomic register. */
  lemma {:induction false} StoreIsRegister<T>(c: Copies<T>, evs: seq<Save<T>>, empty: T)
    ensures Load(Run(c, evs), empty) == Register(c, evs, Load(c, empty))
    decreases evs
  {
    if evs != [] {
      SaveIsAtomic(c, evs[0], empty);
      StoreIsRegister(SaveStep(c, evs[0]), evs[1..], empty);
    }
  }

  /** What is loaded after a history is never older than the last save that returned success. */
  lemma {:induction false} NeverStale<T>(c: Copies<T>, evs: seq<Save<T>>, k: nat, empty: T)
    requires k < |evs| && evs[k].cut == Complete
    ensures exists j :: k <= j < |evs| && Load(Run(c, evs), empty) == evs[j].table
    decreases evs
  {
    var c' := SaveStep(c, evs[0]);
    if k > 0 {
      NeverStale(c', evs[1..], k - 1, empty);
      var j :| k - 1 <= j < |evs[1..]| && Load(Run(c', evs[1..]), empty) == evs[1..][j].table;
      assert evs[j + 1].table == evs[1..][j].table;
    } else {
      SaveIsAtomic(c, evs[0], empty);
      StoreIsRegister(c', evs[1..], empty);
      RegisterIsSome(c', evs[1..], evs[0].table);
      if i :| 0 <= i < |evs[1..]| && Register(c', evs[1..], evs[0].table) == evs[1..][i].table {
        assert evs[i + 1].table == evs[1..][i].table;
      }
    }
  }

  lemma {:induction false} RegisterIsSome<T>(c: Copies<T>, evs: seq<Save<T>>, value: T)
    ensures Register(c, evs, value) == value || exists i :: 0 <= i < |evs| && Register(c, evs, value) == evs[i].table
    decreases evs
  {
    if evs != [] {
      var value' := if TakesEffect(c, evs[0]) then evs[0].table else value;
      RegisterIsSome(SaveStep(c, evs[0]), evs[1..], value');
      if i :| 0 <= i < |evs[1..]| && Register(c, evs, value) == evs[1..][i].table {
        assert evs[i + 1].table == evs[1..][i].table;
      }
    }
  }

  /** Two disks that differ at most in a second copy nobody would read. */
  predicate SameToReaders<T(==)>(a: Copies<T>, b: Copies<T>) {
    a.first == b.first && (a.first.Valid? || a.second == b.second)
  }

  lemma {:induction false} SameForever<T>(a: Copies<T>, b: Copies<T>, evs: seq<Save<T>>, empty: T)
    requires SameToReaders(a, b)
    ensures Load(Run(a, evs), empty) == Load(Run(b, evs), empty)
    decreases evs
  {
    if evs != [] {
      SameForever(SaveStep(a, evs[0]), SaveStep(b, evs[0]), evs[1..], empty);
    }
  }

  /**
   * An interrupted save that was not visible never resurfaces: whatever follows, the disk reads as if
   * that save had never been started.
   */
  lemma InvisibleNeverResurfaces<T>(c: Copies<T>, ev: Save<T>, later: seq<Save<T>>, empty: T)
    requires !TakesEffect(c, ev)
    ensures Load(Run(SaveStep(c, ev), later), empty) == Load(Run(c, later), empty)
  {
    SameForever(SaveStep(c, ev), c, later, empty);
  }

  // ---- Saving through off_t --------------------------------------------------------------

  /** The offsets of the two copies, and the width of the offsets that a save seeks with. */
  datatype Layout = Layout(width: Width, offset0: nat, offset1: nat) {
    /** Where lseek takes the descriptor; negative when it fails. */
    function SeekTo(offset: nat): int { if width == Off32 then S32(offset) else offset }

    predicate Reaches(offset: nat) { SeekTo(offset) == offset }

    predicate Fits() { Reaches(offset0) && Reaches(offset1) }
  }

  /** Either the offsets have 64 bits or both copies lie in the first 2 GB. */
  lemma FitsIff(l: Layout)
    ensures l.Fits() <==> l.width == Off64 || (l.offset0 < TWO31 && l.offset1 < TWO31)
  {
  }

  /** A write that went to another place: a table, or zeros. */
  datatype Stray<T> = Stray(offset: nat, content: Copy<T>)

  datatype Disk<T> = Disk(copies: Copies<T>, strays: seq<Stray<T>>)

  /** Which calls of one save succeed. */
  datatype Io = Io(readOk: bool, writeOk: bool, eraseOk: bool)

  /** Writing one copy, at the place lseek went to. */
  function Put<T>(l: Layout, d: Disk<T>, second: bool, content: Copy<T>): Disk<T>
    requires l.SeekTo(if second then l.offset1 else l.offset0) >= 0
  {
    var offset := if second then l.offset1 else l.offset0;
    if !l.Reaches(offset) then d.(strays := d.strays + [Stray(l.SeekTo(offset), content)])
    else if second then d.(copies := d.copies.(second := content))
    else d.(copies := d.copies.(first := content))
  }

  /** save_persistent_data beneath its checks, with the return code: only the read seeks with 64 bits. */
  function SaveThrough<T>(l: Layout, d: Disk<T>, table: T, io: Io): (Disk<T>, int) {
    var second := d.copies.first.Valid?;
    if !io.readOk || l.SeekTo(if second then l.offset1 else l.offset0) < 0 || !io.writeOk then (d, -1) else
    var d1 := Put(l, d, second, Valid(table));
    if l.SeekTo(if second then l.offset0 else l.offset1) < 0 || !io.eraseOk then (d1, -1)
    else (Put(l, d1, !second, Erased), 0)
  }

  function CutOf(io: Io): Cut {
    if !io.readOk || !io.writeOk then NotStarted else if !io.eraseOk then AfterWrite else Complete
  }

  /** When both copies can be reached, a save is one of the register's, and nothing goes astray. */
  lemma SaveThroughFits<T>(l: Layout, d: Disk<T>, table: T, io: Io)
    requires l.Fits()
    ensures SaveThrough(l, d, table, io).0 == d.(copies := SaveStep(d.copies, Save(table, CutOf(io))))
    ensures SaveThrough(l, d, table, io).1 == if io.readOk && io.writeOk && io.eraseOk then 0 else -1
  {
  }

  datatype Attempt<T> = Attempt(table: T, io: Io)

  function RunThrough<T>(l: Layout, d: Disk<T>, saves: seq<Attempt<T>>): Disk<T>
    decreases saves
  {
    if saves == [] then d else RunThrough(l, SaveThrough(l, d, saves[0].table, saves[0].io).0, saves[1..])
  }

  function Cuts<T>(saves: seq<Attempt<T>>): seq<Save<T>> {
    if saves == [] then [] else [Save(saves[0].table, CutOf(saves[0].io))] + Cuts(saves[1..])
  }

  lemma {:induction false} RunThroughFits<T>(l: Layout, d: Disk<T>, saves: seq<Attempt<T>>)
    requires l.Fits()
    ensures RunThrough(l, d, saves) == d.(copies := Run(d.copies, Cuts(saves)))
    decreases saves
  {
    if saves != [] {
      SaveThroughFits(l, d, saves[0].table, saves[0].io);
      RunThroughFits(l, SaveThrough(l, d, saves[0].table, saves[0].io).0, saves[1..]);
      assert Cuts(saves)[1..] == Cuts(saves[1..]);
    }
  }

  const ALL_OK := Io(true, true, true)

  /** On every disk a save whose calls all succeed is what is loaded next. */
  ghost predicate SavesAreLoaded<T(!new)>(l: Layout, empty: T) {
    forall d: Disk<T>, table: T :: Load(SaveThrough(l, d, table, ALL_OK).0.copies, empty) == table
  }

  /** The store is an atomic register over every history exactly when both copies can be reached. */
  lemma RegisterIffFits<T(!new)>(l: Layout, empty: T, other: T)
    requires other != empty
    ensures SavesAreLoaded(l, empty) <==> l.Fits()
    ensures l.Fits() ==> forall d: Disk<T>, saves ::
      Load(RunThrough(l, d, saves).copies, empty) == Register(d.copies, Cuts(saves), Load(d.copies, empty))
  {
    if l.Fits() {
      forall d: Disk<T>, table: T ensures Load(SaveThrough(l, d, table, ALL_OK).0.copies, empty) == table {
        SaveThroughFits(l, d, table, ALL_OK);
      }
      forall d: Disk<T>, saves
        ensures Load(RunThrough(l, d, saves).copies, empty) == Register(d.copies, Cuts(saves), Load(d.copies, empty))
      {
        RunThroughFits(l, d, saves);
        StoreIsRegister(d.copies, Cuts(saves), empty);
      }
    } else {
      var c := if l.Reaches(l.offset0) then Copies(Valid(empty), Erased) else Copies(Erased, Valid(empty));
      assert Load(SaveThrough(l, Disk(c, []), other, ALL_OK).0.copies, empty) == empty;
    }
  }

  /** With 32-bit offsets a footer at 5 GB: success is reported, the store is unchanged, and the table lies at 1 GB. */
  lemma SaveGoesAstray<T>(c: Copies<T>, table: T)
    requires c.first.Valid?
    ensures var l := Layout(Off32, 0x1_4000_0000, 0x1_4000_1000);
      SaveThrough(l, Disk(c, []), table, ALL_OK) ==
      (Disk(c, [Stray(0x4000_1000, Valid(table)), Stray(0x4000_0000, Erased)]), 0)
  {
    var l := Layout(Off32, 0x1_4000_0000, 0x1_4000_1000);
    assert l.SeekTo(l.offset0) == 0x4000_0000 && l.SeekTo(l.offset1) == 0x4000_1000;
    var d1 := Put(l, Disk(c, []), true, Valid(table));
    assert d1 == Disk(c, [Stray(0x4000_1000, Valid(table))]);
    var d2 := Put(l, d1, false, Erased);
    assert d2.strays == [Stray(0x4000_1000, Valid(table)), Stray(0x4000_0000, Erased)];
  }

  /** At 3 GB no save ever succeeds. */
  lemma SaveNeverSucceeds<T>(d: Disk<T>, table: T, io: Io)
    ensures SaveThrough(Layout(Off32, 0xc000_0000, 0xc000_1000), d, table, io) == (d, -1)
  {
  }

  // ---- Where the copies lie --------------------------------------------------------------

  const U64 := 0x1_0000_0000_0000_0000
  const FOOTER_OFFSET := 0x4000
  const FOOTER_TO_PERSIST := 0x1000

  /** validate_persistent_data_storage, in 64-bit unsigned arithmetic. */
  predicate Validates(offset0: nat, offset1: nat, size: nat) {
    && !((offset0 + size) % U64 > offset1)
    && !(offset0 >= offset1)
    && !(((offset1 + size) % U64 - (offset0 - FOOTER_TO_PERSIST) % U64) % U64 > FOOTER_OFFSET)
  }

  /** Unless the second region runs past 2^64, validation means: disjoint, in order, within the 16K. */
  lemma ValidMeansDisjoint(offset0: nat, offset1: nat, size: nat)
    requires offset0 < U64 && offset1 + size + 0x1000 < U64 && size < 0x1_0000_0000
    ensures Validates(offset0, offset1, size) <==>
      offset0 + size <= offset1 && offset0 < offset1 && offset1 + size + 0x1000 - offset0 <= 0x4000
  {
    if offset0 + size <= offset1 {
      var span := offset1 + size + FOOTER_TO_PERSIST - offset0;
      var start := (offset0 - FOOTER_TO_PERSIST) % U64;
      assert start == if offset0 < FOOTER_TO_PERSIST then offset0 - FOOTER_TO_PERSIST + U64 else offset0 - FOOTER_TO_PERSIST;
      assert (offset1 + size - start) % U64 == span;
    }
  }

  /** Past 2^64 overlapping regions are accepted. */
  lemma WrappedRegionsAccepted()
    ensures var offset0, offset1, size := 0xffff_ffff_ffff_f000, 0xffff_ffff_ffff_f001, 0x1000;
      Validates(offset0, offset1, size) && offset0 + size > offset1
  {
  }

  // ---- The field table -------------------------------------------------------------------

  const KEY_MAX := 32
  const VALUE_MAX := 92
  const HEADER_SIZE := 128
  const U32 := 0x1_0000_0000

  datatype Entry = Entry(key: string, val: string)

  /** strlcpy into a buffer of `n` bytes. */
  function Truncated(s: string, n: nat): (r: string)
    requires n > 0
    ensures |r| < n
  {
    if |s| < n then s else s[..n - 1]
  }

  /** strncmp over KEY_MAX bytes finds no difference. */
  predicate SameKey(a: string, b: string) {
    if |a| < KEY_MAX || |b| < KEY_MAX then a == b else a[..KEY_MAX] == b[..KEY_MAX]
  }

  /** How many entries fit behind the header, in 32-bit unsigned arithmetic. */
  function MaxEntries(dsize: nat): nat {
    ((dsize - HEADER_SIZE) % U32) / (KEY_MAX + VALUE_MAX)
  }

  /** Every entry below the limit lies inside the table, provided the table holds at least its header. */
  lemma EntriesFit(dsize: nat, k: nat)
    requires 128 <= dsize < 0x1_0000_0000
    ensures k < MaxEntries(dsize) <==> 128 + (k + 1) * 124 <= dsize
  {
  }

  /** A table smaller than its header would be given room for millions of entries. */
  lemma TinyTableOverflows(dsize: nat)
    requires dsize < 128
    ensures 34_000_000 < MaxEntries(dsize) < 35_000_000
  {
  }

  function Find(es: seq<Entry>, key: string): (k: nat)
    ensures k <= |es|
    ensures k < |es| ==> SameKey(es[k].key, key)
    ensures forall i | 0 <= i < k :: !SameKey(es[i].key, key)
  {
    if es == [] || SameKey(es[0].key, key) then 0 else 1 + Find(es[1..], key)
  }

  /** persist_get_key. */
  function Lookup(es: seq<Entry>, key: string): Option<string> {
    var k := Find(es, key);
    if k < |es| then Some(Truncated(es[k].val, VALUE_MAX)) else None
  }

  /** persist_set_key: `None` when the table is full. */
  function Updated(es: seq<Entry>, key: string, val: string, max: nat): Option<seq<Entry>> {
    var k := Find(es, key);
    if k < |es| then Some(es[k := es[k].(val := Truncated(val, VALUE_MAX))])
    else if |es| < max then Some(es + [Entry(Truncated(key, KEY_MAX), Truncated(val, VALUE_MAX))])
    else None
  }

  ghost predicate ShortFields(es: seq<Entry>) {
    forall e | e in es :: |e.key| < KEY_MAX && |e.val| < VALUE_MAX
  }

  ghost predicate DistinctKeys(es: seq<Entry>) {
    forall i, j | 0 <= i < j < |es| :: es[i].key != es[j].key
  }

  /**
   * For keys under 32 characters the table is a bounded map: what was set is read back, whole up to 91 characters and
   * cut after them, and nothing else moves.
   */
  lemma SetThenGet(es: seq<Entry>, key: string, val: string, max: nat, other: string)
    requires ShortFields(es) && DistinctKeys(es) && |key| < 32 && |other| < 32
    ensures var r := Updated(es, key, val, max);
      && (r == None <==> Lookup(es, key) == None && |es| >= max)
      && (r.Some? ==> ShortFields(r.value) && DistinctKeys(r.value) && |r.value| <= if |es| < max then max else |es|)
      && (r.Some? ==> Lookup(r.value, key) == Some(if |val| <= 91 then val else val[..91]))
      && (r.Some? && other != key ==> Lookup(r.value, other) == Lookup(es, other))
  {
    var r := Updated(es, key, val, max);
    if r.Some? {
      FindIs(r.value, key, Find(es, key));
      if other != key {
        OthersKept(es, r.value, Find(es, key), other);
      }
    }
  }

  /** Writing one place does not change what a differently keyed lookup finds. */
  lemma OthersKept(es: seq<Entry>, es': seq<Entry>, k: nat, other: string)
    requires ShortFields(es) && |other| < KEY_MAX
    requires k <= |es| <= |es'| && k < |es'| && es'[k].key != other
    requires |es'| == if k < |es| then |es| else |es| + 1
    requires forall i | 0 <= i < |es| && i != k :: es'[i] == es[i]
    requires k < |es| ==> es'[k].key == es[k].key
    ensures Lookup(es', other) == Lookup(es, other)
  {
    var f := Find(es, other);
    if f < |es| {
      FindIs(es', other, f);
    }
  }

  lemma {:induction false} FindIs(es: seq<Entry>, key: string, k: nat)
    requires k < |es| && SameKey(es[k].key, key) && forall i | 0 <= i < k :: !SameKey(es[i].key, key)
    ensures Find(es, key) == k
  {
    if k > 0 {
      FindIs(es[1..], key, k - 1);
    }
  }

  /** A key of 32 characters or more is never found again: get fails, and every set takes another entry. */
  lemma LongKeyIsLost(es: seq<Entry>, key: string, val: string, max: nat)
    requires ShortFields(es) && |key| >= 32
    ensures Lookup(es, key) == None
    ensures var r := Updated(es, key, val, max);
      if |es| < max then r.Some? && |r.value| == |es| + 1 && Lookup(r.value, key) == None else r == None
  {
    assert forall i | 0 <= i < |es| :: es[i] in es && !SameKey(es[i].key, key);
  }

  /** Two long keys with the same first 31 characters leave the table with a repeated key. */
  lemma LongKeysCollide(es: seq<Entry>, key: string, val: string, max: nat)
    requires ShortFields(es) && |key| >= 32 && |es| < max
    requires exists i :: 0 <= i < |es| && es[i].key == key[..31]
    ensures Updated(es, key, val, max).Some? && !DistinctKeys(Updated(es, key, val, max).value)
  {
    LongKeyIsLost(es, key, val, max);
    var i :| 0 <= i < |es| && es[i].key == key[..31];
    var r := Updated(es, key, val, max).value;
    assert r[i].key == r[|es|].key;
  }

  // ---- The daemon's side -----------------------------------------------------------------

  class PersistentData {
    /** The buffer of `dsize` bytes behind the header, and how much of it is used. */
    var entries: array<Entry>
    var validEntries: nat
    /** Where the two copies are, the copies on disk, and what was written elsewhere. */
    const layout: Layout
    var copies: Copies<seq<Entry>>
    var strays: seq<Stray<seq<Entry>>>

    ghost predicate Valid()
      reads this
    {
      validEntries <= entries.Length
    }

    ghost function Fields(): seq<Entry>
      reads this, entries
      requires Valid()
    {
      entries[..validEntries]
    }

    method GetKey(field: string) returns (r: Option<string>)
      requires Valid()
      ensures r == Lookup(Fields(), field)
    {
      for i := 0 to validEntries
        invariant forall j | 0 <= j < i :: !SameKey(entries[j].key, field)
      {
        if SameKey(entries[i].key, field) {
          FindIs(Fields(), field, i);
          return Some(Truncated(entries[i].val, VALUE_MAX));
        }
      }
      r := None;
    }

    /**
     * The room in the buffer and the table size that is read from the footer need not agree. `overruns`: a new entry is
     * written past the end of the buffer, and the rest of the call is not followed.
     */
    method SetKey(field: string, value: string, dsize: nat) returns (rc: int, overruns: bool)
      requires Valid()
      modifies this`validEntries, entries
      ensures Valid()
      ensures overruns <==>
        Lookup(old(Fields()), field) == None && old(validEntries) == entries.Length && entries.Length < MaxEntries(dsize)
      ensures var r := Updated(old(Fields()), field, value, MaxEntries(dsize));
        !overruns ==> Fields() == (if r.Some? then r.value else old(Fields())) && rc == if r.Some? then 0 else -1
    {
      rc, overruns := -1, false;
      var num := validEntries;
      for i := 0 to num
        invariant validEntries == num && entries[..] == old(entries[..]) && !overruns
        invariant forall j | 0 <= j < i :: !SameKey(entries[j].key, field)
      {
        if SameKey(entries[i].key, field) {
          FindIs(Fields(), field, i);
          entries[i] := entries[i].(val := Truncated(value, VALUE_MAX));
          return 0, false;
        }
      }
      if validEntries < MaxEntries(dsize) {
        if num == entries.Length {
          return -1, true;
        }
        entries[num] := Entry(Truncated(field, KEY_MAX), Truncated(value, VALUE_MAX));
        validEntries := validEntries + 1;
        return 0, false;
      }
    }

    /** Beneath the version gate: read the first copy, write the other one, erase the old one. */
    method SavePersistentData(io: Io) returns (rc: int)
      requires Valid()
      modifies this`copies, this`strays
      ensures (Disk(copies, strays), rc) == SaveThrough(layout, old(Disk(copies, strays)), Fields(), io)
    {
      if !io.readOk {
        return -1;
      }
      var writeSecond := copies.first.Valid?;
      var writeOffset, eraseOffset := layout.offset0, layout.offset1;
      if writeSecond {
        writeOffset, eraseOffset := layout.offset1, layout.offset0;
      }
      if layout.SeekTo(writeOffset) < 0 {
        return -1;
      }
      if !io.writeOk {
        return -1;
      }
      WriteCopy(writeSecond, writeOffset, Copy.Valid(entries[..validEntries]));
      if layout.SeekTo(eraseOffset) < 0 {
        return -1;
      }
      if !io.eraseOk {
        return -1;
      }
      WriteCopy(!writeSecond, eraseOffset, Erased);
      rc := 0;
    }

    /** A write of a whole copy at the place the descriptor was taken to. */
    method WriteCopy(second: bool, offset: nat, content: Copy<seq<Entry>>)
      requires offset == (if second then layout.offset1 else layout.offset0) && layout.SeekTo(offset) >= 0
      modifies this`copies, this`strays
      ensures Disk(copies, strays) == Put(layout, old(Disk(copies, strays)), second, content)
    {
      if !layout.Reaches(offset) {
        strays := strays + [Stray(layout.SeekTo(offset), content)];
      } else if second {
        copies := copies.(second := content);
      } else {
        copies := copies.(first := content);
      }
    }

    /**
     * The loop over the two copies; the first valid one wins. `readOk[i]` is whether the i-th copy can be read; the
     * second one is not looked at when the first is valid.
     */
    method LoadPersistentData(readOk: seq<bool>) returns (table: Option<seq<Entry>>)
      requires |readOk| == 2
      ensures table == None <==> !readOk[0] || (copies.first == Erased && !readOk[1])
      ensures table.Some? ==> table.value == Load(copies, [])
    {
      var both := [copies.first, copies.second];
      for i := 0 to 2
        invariant forall j | 0 <= j < i :: both[j] == Erased && readOk[j]
      {
        if !readOk[i] {
          return None;
        }
        if both[i].Valid? {
          assert i > 0 ==> both[0] == Erased;
          return Some(both[i].table);
        }
      }
      assert both[0] == Erased && both[1] == Erased;
      table := Some([]);
    }
  }
}
