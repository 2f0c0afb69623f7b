/**
 * vold's secure containers: the geometry of an ASEC image in 32-bit arithmetic, and the creation and mounting
 * of a container as transactions over the image file, a loop device, a device mapping and the container list.
 */
module Asec {
  import opened Util

  // ---- Geometry --------------------------------------------------------------------------

  function U32(x: int): nat { x % TWO32 }

  /** Division truncating toward zero. */
  function Quot(a: int, b: int): int
    requires b > 0
  {
    if a >= 0 then a / b else -((-a) / b)
  }

  /** The sector count the create command computes from a size in megabytes. */
  function Sectors(mb: int): nat { U32(Quot(S32(mb * 1048576), 512)) }

  function FatSize(n: nat): nat { U32(U32(n * 4) / 512 * 2 + 2) }

  /** Sectors of the image body, rounded up to whole 63-sector tracks. */
  function Body(n: nat): nat {
    var i := U32(n + FatSize(n) + 2);
    if i % 63 != 0 then U32(i + (63 - i % 63)) else i
  }

  /** `sectors * 512` is computed in 32 bits without sign and passed as a file offset. */
  function Offset(w: Width, sectors: nat): int { if w == Off32 then S32(sectors * 512) else U32(sectors * 512) }

  /** The same steps on unbounded integers. */
  function WideFat(n: nat): nat { n * 4 / 512 * 2 + 2 }

  function WideBody(n: nat): nat {
    var i := n + WideFat(n) + 2;
    if i % 63 != 0 then i + (63 - i % 63) else i
  }

  /** Every 32-bit step from the size in megabytes to the size of the image file is exact. */
  predicate NoStepWraps(mb: int) {
    var n := Sectors(mb);
    && S32(mb * 1048576) == mb * 1048576 && n == Quot(mb * 1048576, 512)
    && U32(n * 4) == n * 4 && FatSize(n) == WideFat(n)
    && U32(n + FatSize(n) + 2) == n + WideFat(n) + 2 && Body(n) == WideBody(n)
    && U32((Body(n) + 1) * 512) == (WideBody(n) + 1) * 512
  }

  /** No 32-bit step wraps exactly for sizes up to 2047 MB. */
  lemma NoStepWrapsIff(mb: int)
    ensures NoStepWraps(mb) <==> 0 <= mb <= 2047
  {
    hide S32, U32, Quot, Sectors, FatSize, Body, WideFat, WideBody;
    if 1 <= mb <= 2047 {
      SectorsValue(mb);
      FatValue(mb);
      Geometry(mb);
      WideValue(mb);
      ExactSize(mb);
      Small((Body(2048 * mb) + 1) * 512);
    } else if mb == 0 {
      ZeroMegabytes();
    } else {
      BytesWrap(mb);
    }
  }

  lemma ZeroMegabytes()
    ensures NoStepWraps(0)
  {
    assert Quot(0, 512) == 0 && Sectors(0) == 0;
    assert FatSize(0) == 2 && WideFat(0) == 2;
    assert Body(0) == 63 && WideBody(0) == 63;
  }

  lemma ExactSize(mb: int)
    requires 1 <= mb <= 2047
    ensures S32(mb * 1048576) == mb * 1048576 && Quot(mb * 1048576, 512) == 2048 * mb
  {
  }

  lemma BytesWrap(mb: int)
    requires mb < 0 || mb > 2047
    ensures !(S32(mb * 1048576) == mb * 1048576 && Sectors(mb) == Quot(mb * 1048576, 512))
  {
    if mb < 0 {
      assert Quot(mb * 1048576, 512) < 0;
    }
  }

  lemma WideValue(mb: int)
    requires 1 <= mb <= 2047 && FatSize(2048 * mb) == 32 * mb + 2
    ensures U32(2048 * mb * 4) == 2048 * mb * 4 && FatSize(2048 * mb) == WideFat(2048 * mb)
    ensures U32(2048 * mb + FatSize(2048 * mb) + 2) == 2048 * mb + WideFat(2048 * mb) + 2
    ensures Body(2048 * mb) == WideBody(2048 * mb)
  {
    hide FatSize;
    assert 2048 * mb * 4 / 512 == 16 * mb;
    var i := 2048 * mb + FatSize(2048 * mb) + 2;
    Small(i);
    Small(i + (63 - i % 63));
  }

  lemma Geometry(mb: int)
    requires 1 <= mb <= 2047
    ensures Sectors(mb) == 2048 * mb
    ensures 2080 * mb + 4 <= Body(Sectors(mb)) <= 2080 * mb + 66
    ensures Body(Sectors(mb)) % 63 == 0
    ensures (Body(Sectors(mb)) + 1) * 512 < TWO32
  {
    SectorsValue(mb);
    FatValue(mb);
    hide Sectors, FatSize, Body;
    BodyValue(2048 * mb, 2080 * mb + 4);
  }

  lemma BodyValue(n: nat, i: nat)
    requires n + FatSize(n) + 2 == i && i + 63 < TWO32
    ensures i <= Body(n) <= i + 62 && Body(n) % 63 == 0
  {
    hide FatSize;
    Small(i);
    if i % 63 != 0 {
      RoundUp(i);
      Small(i + (63 - i % 63));
    }
  }

  lemma Small(x: nat)
    requires x < TWO32
    ensures U32(x) == x
  {
  }

  lemma SectorsValue(mb: int)
    requires 1 <= mb <= 2047
    ensures Sectors(mb) == 2048 * mb
  {
    assert S32(mb * 1048576) == mb * 1048576;
    assert mb * 1048576 / 512 == 2048 * mb;
  }

  lemma FatValue(mb: int)
    requires 1 <= mb <= 2047
    ensures FatSize(2048 * mb) == 32 * mb + 2
  {
    assert U32(2048 * mb * 4) == 8192 * mb;
    assert 8192 * mb / 512 == 16 * mb;
  }

  lemma RoundUp(i: nat)
    ensures (i + (63 - i % 63)) % 63 == 0
  {
    assert i + (63 - i % 63) == 63 * (i / 63 + 1);
  }

  /** With 32-bit file offsets an image of more than 2016 MB cannot be laid out: its size reads as negative. */
  lemma OffsetsFitIff(mb: int)
    requires 1 <= mb <= 2047
    ensures Offset(Off32, Body(Sectors(mb)) + 1) >= 0 <==> mb <= 2016
    ensures Offset(Off32, Body(Sectors(mb))) >= 0 <==> mb <= 2016
    ensures Offset(Off64, Body(Sectors(mb)) + 1) == (Body(Sectors(mb)) + 1) * 512
    ensures mb <= 2016 ==> Offset(Off32, Body(Sectors(mb)) + 1) == (Body(Sectors(mb)) + 1) * 512
    ensures mb <= 2016 ==> Offset(Off32, Body(Sectors(mb))) == Body(Sectors(mb)) * 512
    ensures Offset(Off64, Body(Sectors(mb))) == Body(Sectors(mb)) * 512
  {
    Geometry(mb);
    var body := Body(Sectors(mb));
    hide Body, Sectors, FatSize;
    OffsetValue(body);
    OffsetValue(body + 1);
  }

  lemma OffsetValue(n: nat)
    requires n * 512 < TWO32
    ensures Offset(Off64, n) == n * 512
    ensures Offset(Off32, n) == if n * 512 < TWO31 then n * 512 else n * 512 - TWO32
  {
  }

  /** A negative size is not refused: it becomes a large count that passes the size check. */
  lemma NegativeSizePasses(mb: int)
    requires -2048 <= mb < 0
    ensures Sectors(mb) >= (1024 * 1024) / 512
  {
    assert S32(mb * 1048576) == mb * 1048576;
    assert Quot(mb * 1048576, 512) == mb * 2048;
  }

  // ---- An ext4 file system on a container without a key -----------------------------------

  const FS_BLOCK := 8
  const BLOCKS_PER_GROUP := 32768
  const DESC_SIZE := 32

  function DivUp(a: nat, b: nat): nat
    requires b > 0
  {
    (a + b - 1) / b
  }

  /** is_power_of. */
  predicate PowerOf(a: nat, b: nat)
    requires b > 1
  {
    if a > b then a % b == 0 && (Shrinks(a, b); PowerOf(a / b, b)) else a == b
  }

  lemma {:induction false} AtLeastTwice(b: nat, q: nat)
    requires b >= 2
    ensures b * q >= 2 * q
  {
    if b > 2 {
      AtLeastTwice(b - 1, q);
      assert b * q == (b - 1) * q + q;
    }
  }

  lemma Shrinks(a: nat, b: nat)
    requires a > b > 1
    ensures a / b < a
  {
    var q := a / b;
    AtLeastTwice(b, q);
    assert a == b * q + a % b;
  }

  predicate HasBackup(group: nat) { group <= 1 || PowerOf(group, 3) || PowerOf(group, 5) || PowerOf(group, 7) }

  /** The blocks before the data of the last group, for a device of so many whole blocks. */
  function LastHeader(blocks: nat): nat {
    var groups := DivUp(blocks, BLOCKS_PER_GROUP);
    if groups == 0 then 0 else
    var perGroup := DivUp(DivUp(blocks / 4, groups), 16) * 16;
    var desc := DivUp(groups * DESC_SIZE, 4096);
    var reserved := DivUp(groups * 1024 * DESC_SIZE, 4096) - desc;
    2 + DivUp(perGroup * 256, 4096) + if HasBackup(groups - 1) then 1 + desc + (if reserved > 1024 then 1024 else reserved) else 0
  }

  predicate DropsLastGroup(blocks: nat) { 0 < blocks % BLOCKS_PER_GROUP < LastHeader(blocks) }

  function WholeGroups(blocks: nat): nat { blocks / BLOCKS_PER_GROUP * BLOCKS_PER_GROUP }

  /** The blocks of the file system make_ext4fs lays over a device of so many sectors. */
  function FsBlocks(sectors: nat): nat {
    var blocks := sectors / FS_BLOCK;
    if DropsLastGroup(blocks) then WholeGroups(blocks) else blocks
  }

  /** One block behind a whole group of 32768 is too few for the group's tables: it is dropped. */
  lemma OneBlockDropped()
    ensures FsBlocks(8 * 32769) == 32768 && FsBlocks(8 * 32768) == 32768
  {
    hide HasBackup;
    assert 32769 % BLOCKS_PER_GROUP == 1 && LastHeader(32769) >= 2;
  }

  /** The tracks of the image body. */
  function Tracks(mb: nat): nat { (2080 * mb + 66) / 63 }

  /**
   * Without a key the file system is made on the loop device itself, superblock sector and all. That sector falls
   * inside it exactly when the tracks leave a remainder of one modulo eight and the last group is not dropped.
   */
  lemma Ext4CoversSuperblockIff(mb: int)
    requires 1 <= mb <= 2047
    ensures var body := Body(Sectors(mb));
      FsBlocks(body + 1) * FS_BLOCK > body <==> Tracks(mb) % 8 == 1 && !DropsLastGroup((body + 1) / FS_BLOCK)
  {
    Geometry(mb);
    var body := Body(Sectors(mb));
    hide Sectors, Body, DropsLastGroup;
    TrackCount(mb, body);
    EighthTrack(Tracks(mb));
    var blocks := (body + 1) / FS_BLOCK;
    if blocks % BLOCKS_PER_GROUP == 0 {
      NothingToDrop(blocks);
    }
  }

  lemma NothingToDrop(blocks: nat)
    requires blocks % BLOCKS_PER_GROUP == 0
    ensures !DropsLastGroup(blocks)
  {
  }

  lemma TrackCount(mb: int, body: nat)
    requires 1 <= mb && body % 63 == 0 && 2080 * mb + 4 <= body <= 2080 * mb + 66
    ensures body == 63 * Tracks(mb)
  {
    var t := body / 63;
    assert body == 63 * t;
    QuotientIs(2080 * mb + 66, t);
  }

  lemma QuotientIs(x: nat, t: nat)
    requires 63 * t <= x < 63 * t + 63
    ensures x / 63 == t
  {
  }

  lemma EighthTrack(t: nat)
    ensures (63 * t + 1) % FS_BLOCK == 0 <==> t % 8 == 1
  {
    var q, r := t / 8, t % 8;
    assert 63 * t + 1 == 8 * (63 * q + 8 * r) + (1 - r);
    RemainderOf(63 * q + 8 * r, 1 - r);
  }

  lemma RemainderOf(k: int, d: int)
    requires -7 <= d <= 1
    ensures (8 * k + d) % FS_BLOCK == 0 <==> d == 0
  {
  }

  /** At 8 MB the container's superblock lies in the file system's last block. */
  lemma EightMegabytesCovered()
    ensures var body := Body(Sectors(8)); FsBlocks(body + 1) * FS_BLOCK > body
  {
    hide Sectors, Body, DropsLastGroup;
    BodyOfEight();
    SmallGroupKept();
  }

  lemma BodyOfEight()
    ensures Body(Sectors(8)) == 16695
  {
    hide Sectors, Body;
    Geometry(8);
    TrackCount(8, Body(Sectors(8)));
  }

  lemma SmallGroupKept()
    ensures !DropsLastGroup(2087)
  {
    assert DivUp(2087, BLOCKS_PER_GROUP) == 1 && DivUp(521, 1) == 521 && DivUp(521, 16) == 33;
    assert DivUp(33 * 16 * 256, 4096) == 33 && DivUp(DESC_SIZE, 4096) == 1 && DivUp(1024 * DESC_SIZE, 4096) == 8;
  }

  // ---- What is on disk and in the kernel -------------------------------------------------

  const MAGIC: nat := 0xc0def00d
  const VERSION: nat := 1
  const LOOP_MAX: nat := 4096
  const EXT4: nat := 1

  datatype Superblock = Superblock(magic: nat, ver: nat, cipher: nat, opts: nat)

  const BLANK := Superblock(0, 0, 0, 0)

  /** An image file: its length in sectors and the superblocks written into it, by sector. */
  datatype Image = Image(sectors: nat, blocks: map<nat, Superblock>)

  datatype File = File(external: bool, id: string)

  datatype LoopDev = LoopDev(name: string, file: File)

  /** A device mapping over the first `sectors` sectors of a loop device. */
  datatype Dm = Dm(loop: nat, sectors: nat)

  datatype Resources = Resources(
    images: map<File, Image>,
    loops: seq<Option<LoopDev>>,
    dms: map<string, Dm>,
    containers: seq<string>,
    mounted: map<string, Fs>)

  /** The file system a mount goes by. */
  datatype Fs = Ext4 | Fat

  function FsOf(sb: Superblock): Fs { if sb.opts % 2 == 1 then Ext4 else Fat }

  function FsAsked(fstype: string): Fs { if fstype == "ext4" then Ext4 else Fat }

  /** The first loop device that is free, or LOOP_MAX. */
  function FirstFree(loops: seq<Option<LoopDev>>): (k: nat)
    ensures k <= |loops|
    ensures k < |loops| ==> loops[k] == None
    ensures forall j | 0 <= j < k :: loops[j].Some?
  {
    if loops == [] || loops[0] == None then 0 else 1 + FirstFree(loops[1..])
  }

  /** The first loop device with this name. */
  function FirstNamed(loops: seq<Option<LoopDev>>, name: string): (k: nat)
    ensures k <= |loops|
    ensures k < |loops| ==> loops[k].Some? && loops[k].value.name == name
    ensures forall j | 0 <= j < k :: loops[j] == None || loops[j].value.name != name
  {
    if loops == [] || (loops[0].Some? && loops[0].value.name == name) then 0 else 1 + FirstNamed(loops[1..], name)
  }

  function PathOf(f: File): string { (if f.external then "/mnt/secure/asec/" else "/data/app-asec/") + f.id + ".asec" }

  predicate Fits(f: File) { |PathOf(f)| < 255 }

  /** findAsec: the internal directory first. */
  function Find(images: map<File, Image>, id: string): Option<File> {
    if File(false, id) in images then (if Fits(File(false, id)) then Some(File(false, id)) else None)
    else if File(true, id) in images && Fits(File(true, id)) then Some(File(true, id))
    else None
  }

  predicate LegalChar(c: char) { c == '_' || c == '-' || c == '.' || 'a' <= c <= 'z' || 'A' <= c <= 'Z' || '0' <= c <= '9' }

  predicate Legal(id: string) {
    && id != "" && id[0] != '.' && id[|id| - 1] != '.'
    && (forall i | 0 <= i < |id| :: LegalChar(id[i]))
    && (forall i | 1 <= i < |id| :: !(id[i - 1] == '.' && id[i] == '.'))
  }

  /** A legal name stays in its directory: it has no separator, is no hidden file and leads nowhere upwards. */
  lemma LegalStaysInside(id: string)
    ensures Legal(id) ==> id != "" && '/' !in id && 0 as char !in id && id[0] != '.'
    ensures Legal(id) ==> forall i | 0 <= i < |id| - 1 && id[i] == '.' :: id[i + 1] != '.'
    ensures |id| == 1 ==> (Legal(id) <==>
      var c := id[0] as int; c == 45 || c == 95 || 48 <= c <= 57 || 65 <= c <= 90 || 97 <= c <= 122)
    ensures Legal(id) ==> forall i | 0 <= i < |id| :: id[i] == '.' || Legal([id[i]])
  {
    if Legal(id) {
      forall i | 0 <= i < |id| - 1 && id[i] == '.' ensures id[i + 1] != '.' {
        assert !(id[i + 1 - 1] == '.' && id[i + 1] == '.');
      }
    }
  }

  /** The longest names: the path of the image, with its NUL, has to fit into 255 bytes. */
  lemma FitsIff(id: string)
    ensures Fits(File(false, id)) <==> |id| <= 234
    ensures Fits(File(true, id)) <==> |id| <= 232
  {
  }

  /** The superblock lookupInfo reads: the last sector of the device, unless the seek or the read fails. */
  function ReadSuperblock(w: Width, image: Image): Option<Superblock> {
    var at := Offset(w, U32(image.sectors - 1));
    if at < 0 || at / 512 >= image.sectors then None
    else if at / 512 in image.blocks then Some(image.blocks[at / 512])
    else Some(BLANK)
  }

  /** What create leaves on disk for a size in megabytes. */
  function NewImage(w: Width, mb: int, sb: Superblock): Image
    requires 1 <= mb <= 2047 && (w == Off64 || mb <= 2016)
  {
    var body := Body(Sectors(mb));
    Image(body + 1, map[body := sb])
  }

  /** Mount looks for the superblock where create wrote it, and the mapping it sets up ends just before it. */
  lemma SuperblockFound(w: Width, mb: int, sb: Superblock)
    requires 1 <= mb <= 2047 && (w == Off64 || mb <= 2016)
    ensures ReadSuperblock(w, NewImage(w, mb, sb)) == Some(sb)
    ensures forall s | s in NewImage(w, mb, sb).blocks :: s >= NewImage(w, mb, sb).sectors - 1
  {
    hide Body, Sectors, Offset;
    Geometry(mb);
    OffsetsFitIff(mb);
    assert U32(Body(Sectors(mb))) == Body(Sectors(mb));
  }

  /** The file a failed truncation leaves behind has no superblock to find. */
  lemma StubHasNoSuperblock(w: Width)
    ensures ReadSuperblock(w, Image(0, map[])) == None
  {
  }

  // ---- Outcomes --------------------------------------------------------------------------

  /** Outcomes of the system calls of one creation, in order. */
  datatype CreateEnv = CreateEnv(
    volumeNamed: bool,
    creat: bool,
    truncate: bool,
    hash: Option<string>,
    openFile: bool,
    setFd: bool,
    setStatus: bool,
    dmCreate: bool,
    dmLoad: bool,
    openDevice: bool,
    seek: bool,
    write: bool,
    mountPath: bool,
    format: bool,
    mkdir: bool,
    mount: bool)

  datatype MountEnv = MountEnv(
    mountPath: bool,
    hash: Option<string>,
    openFile: bool,
    setFd: bool,
    setStatus: bool,
    openDevice: bool,
    getSize: bool,
    read: bool,
    dmCreate: bool,
    dmLoad: bool,
    mkdir: bool,
    mount: bool)

  datatype Request = Request(id: string, sectors: nat, fstype: string, key: string, external: bool)

  function FileOf(q: Request): File { File(q.external, q.id) }

  function SbOf(q: Request): Superblock {
    Superblock(MAGIC, VERSION, if q.key == "none" then 0 else 1, if q.fstype == "ext4" then EXT4 else 0)
  }

  lemma SuperblockOf(q: Request)
    ensures SbOf(q).magic == 0xc0def00d && SbOf(q).ver == 1
    ensures SbOf(q).cipher == (if q.key == "none" then 0 else 1) && SbOf(q).opts == if q.fstype == "ext4" then 1 else 0
    ensures FsOf(SbOf(q)) == FsAsked(q.fstype)
  {
  }

  /** The checks before anything is created. */
  predicate Proceeds(r: Resources, q: Request, e: CreateEnv) {
    && Legal(q.id) && q.fstype in {"none", "ext4", "fat"} && q.sectors >= (1024 * 1024) / 512
    && !e.volumeNamed && Find(r.images, q.id) == None && Fits(FileOf(q)) && FileOf(q) !in r.images
  }

  predicate Truncates(w: Width, q: Request, e: CreateEnv) { e.truncate && Offset(w, U32(Body(q.sectors) + 1)) >= 0 }

  predicate ImageMade(w: Width, r: Resources, q: Request, e: CreateEnv) { Proceeds(r, q, e) && e.creat && Truncates(w, q, e) }

  predicate LoopAttached(loops: seq<Option<LoopDev>>, e: CreateEnv) {
    e.hash.Some? && FirstFree(loops) < |loops| && e.openFile && e.setFd
  }

  /** The file is attached but the device cannot be named. */
  predicate LoopStuck(loops: seq<Option<LoopDev>>, e: CreateEnv) { LoopAttached(loops, e) && !e.setStatus }

  predicate DmMade(loops: seq<Option<LoopDev>>, dms: map<string, Dm>, q: Request, e: CreateEnv) {
    LoopAttached(loops, e) && e.setStatus && q.key != "none" && e.hash.value !in dms && e.dmCreate
  }

  /** The mapping exists but its table cannot be loaded. */
  predicate DmStuck(loops: seq<Option<LoopDev>>, dms: map<string, Dm>, q: Request, e: CreateEnv) {
    DmMade(loops, dms, q, e) && !e.dmLoad
  }

  predicate DevicesUp(loops: seq<Option<LoopDev>>, dms: map<string, Dm>, q: Request, e: CreateEnv) {
    LoopAttached(loops, e) && e.setStatus && (q.key != "none" ==> DmMade(loops, dms, q, e) && e.dmLoad)
  }

  lemma StuckIsDown(loops: seq<Option<LoopDev>>, dms: map<string, Dm>, q: Request, e: CreateEnv)
    ensures LoopStuck(loops, e) || DmStuck(loops, dms, q, e) ==> !DevicesUp(loops, dms, q, e)
    ensures !(LoopStuck(loops, e) && DmStuck(loops, dms, q, e))
    ensures LoopStuck(loops, e) ==> FirstFree(loops) < |loops|
    ensures DevicesUp(loops, dms, q, e) || DmStuck(loops, dms, q, e) ==> e.hash.Some? && FirstFree(loops) < |loops|
  {
  }

  predicate Fills(q: Request, e: CreateEnv, size: int, at: int) {
    && e.openDevice && e.seek && at >= 0 && e.write && at / 512 < size / 512
    && (q.fstype != "none" ==> e.mountPath && e.format && e.mkdir && e.mount)
  }

  /** The failures that leave something behind: a truncation, the naming of the loop device, the loading of the mapping. */
  predicate LeavesStub(w: Width, r: Resources, q: Request, e: CreateEnv) { Proceeds(r, q, e) && e.creat && !Truncates(w, q, e) }

  predicate LeavesLoop(w: Width, r: Resources, q: Request, e: CreateEnv) { ImageMade(w, r, q, e) && LoopStuck(r.loops, e) }

  predicate LeavesDm(w: Width, r: Resources, q: Request, e: CreateEnv) { ImageMade(w, r, q, e) && DmStuck(r.loops, r.dms, q, e) }

  predicate Completes(w: Width, r: Resources, q: Request, e: CreateEnv) {
    && ImageMade(w, r, q, e) && DevicesUp(r.loops, r.dms, q, e)
    && Fills(q, e, Offset(w, U32(Body(q.sectors) + 1)), Offset(w, Body(q.sectors)))
  }

  /** The sector an offset points to; a negative one points nowhere. */
  function SectorAt(w: Width, n: nat): nat { if Offset(w, n) < 0 then 0 else Offset(w, n) / 512 }

  /** The resources after a completed creation. */
  function AfterCreate(w: Width, r: Resources, q: Request, e: CreateEnv): Resources
    requires e.hash.Some? && FirstFree(r.loops) < |r.loops|
  {
    var body, k := Body(q.sectors), FirstFree(r.loops);
    Resources(
      r.images[FileOf(q) := Image(SectorAt(w, U32(body + 1)), map[SectorAt(w, body) := SbOf(q)])],
      r.loops[k := Some(LoopDev(e.hash.value, FileOf(q)))],
      if q.key == "none" then r.dms else r.dms[e.hash.value := Dm(k, body)],
      r.containers + [q.id],
      if q.fstype == "none" then r.mounted else r.mounted[q.id := FsAsked(q.fstype)])
  }

  /** The image file a mapping lies over, through its loop device. */
  function Backing(r: Resources, name: string): Option<File> {
    if name !in r.dms || r.dms[name].loop >= |r.loops| || r.loops[r.dms[name].loop] == None then None
    else Some(r.loops[r.dms[name].loop].value.file)
  }

  /** For the sizes of the create command the image, the superblock and the mapping are laid out as intended. */
  lemma CreatedLayout(w: Width, r: Resources, q: Request, e: CreateEnv, mb: int)
    requires 1 <= mb <= 2047 && (w == Off64 || mb <= 2016)
    ensures q.sectors == Sectors(mb) && Completes(w, r, q, e) ==> (
      && AfterCreate(w, r, q, e).images[FileOf(q)] == NewImage(w, mb, SbOf(q))
      && (q.key != "none" ==> AfterCreate(w, r, q, e).dms[e.hash.value].sectors == NewImage(w, mb, SbOf(q)).sectors - 1)
      && (q.key != "none" ==> Backing(AfterCreate(w, r, q, e), e.hash.value) == Some(FileOf(q)))
      && (q.key == "none" ==> AfterCreate(w, r, q, e).dms == r.dms)
      && q.id in AfterCreate(w, r, q, e).containers
      && (q.fstype == "ext4" ==> q.id in AfterCreate(w, r, q, e).mounted && AfterCreate(w, r, q, e).mounted[q.id] == Ext4)
      && (q.fstype == "fat" ==> q.id in AfterCreate(w, r, q, e).mounted && AfterCreate(w, r, q, e).mounted[q.id] == Fat)
      && (q.fstype == "none" ==> AfterCreate(w, r, q, e).mounted == r.mounted))
  {
    hide Body, Offset, Sectors, Legal, Fits, Find, FirstFree;
    Geometry(mb);
    OffsetsFitIff(mb);
    if q.sectors == Sectors(mb) {
      assert U32(Body(q.sectors) + 1) == Body(q.sectors) + 1;
    }
  }

  /** Every call that the request needs works: with a key those of the mapping, with a file system those of the mount. */
  predicate AllGood(r: Resources, q: Request, e: CreateEnv) {
    && e.creat && e.truncate && e.hash.Some? && (exists k :: 0 <= k < |r.loops| && r.loops[k] == None)
    && e.openFile && e.setFd && e.setStatus && e.openDevice && e.seek && e.write
    && (q.key == "none" || (e.hash.value !in r.dms && e.dmCreate && e.dmLoad))
    && (q.fstype == "none" || (e.mountPath && e.format && e.mkdir && e.mount))
  }

  /** A container of 1 to 2047 MB that passes the checks is created exactly when every call works and its offsets fit. */
  lemma CreatedIffOffsetsFit(w: Width, r: Resources, q: Request, e: CreateEnv, mb: int)
    requires 1 <= mb <= 2047 && Proceeds(r, q, e)
    ensures q.sectors == Sectors(mb) ==> (Completes(w, r, q, e) <==> AllGood(r, q, e) && (w == Off64 || mb <= 2016))
  {
    hide Body, Offset, Sectors, Legal, Fits, Find, FirstFree;
    Geometry(mb);
    OffsetsFitIff(mb);
    if q.sectors == Sectors(mb) {
      assert U32(Body(q.sectors) + 1) == Body(q.sectors) + 1;
    }
  }

  // ---- Mounting --------------------------------------------------------------------------

  predicate MountProceeds(r: Resources, id: string, e: MountEnv) {
    Legal(id) && Find(r.images, id).Some? && e.mountPath && id !in r.mounted && e.hash.Some?
  }

  /** The loop device a mount uses: one that carries the container's name already, or the first free one. */
  function MountLoop(r: Resources, name: string): (k: nat)
    ensures k <= |r.loops|
  {
    if FirstNamed(r.loops, name) < |r.loops| then FirstNamed(r.loops, name) else FirstFree(r.loops)
  }

  function MountFile(r: Resources, id: string, name: string): File
    requires Find(r.images, id).Some?
  {
    if FirstNamed(r.loops, name) < |r.loops| then r.loops[FirstNamed(r.loops, name)].value.file else Find(r.images, id).value
  }

  predicate LoopReady(r: Resources, name: string, e: MountEnv) {
    FirstNamed(r.loops, name) < |r.loops| || (FirstFree(r.loops) < |r.loops| && e.openFile && e.setFd && e.setStatus)
  }

  predicate GoodContainer(w: Width, images: map<File, Image>, f: File) {
    && f in images && ReadSuperblock(w, images[f]).Some?
    && ReadSuperblock(w, images[f]).value.magic == MAGIC && ReadSuperblock(w, images[f]).value.ver == VERSION
  }

  predicate MountCompletes(w: Width, r: Resources, id: string, key: string, e: MountEnv) {
    && MountProceeds(r, id, e) && LoopReady(r, e.hash.value, e)
    && e.openDevice && e.getSize && e.read && GoodContainer(w, r.images, MountFile(r, id, e.hash.value))
    && (key != "none" && e.hash.value !in r.dms ==> e.dmCreate && e.dmLoad)
    && e.mkdir && e.mount
  }

  function AfterMount(w: Width, r: Resources, id: string, key: string, e: MountEnv): Resources
    requires e.hash.Some? && Find(r.images, id).Some? && MountLoop(r, e.hash.value) < |r.loops|
    requires GoodContainer(w, r.images, MountFile(r, id, e.hash.value))
  {
    var name := e.hash.value;
    var k, f := MountLoop(r, name), MountFile(r, id, name);
    Resources(
      r.images,
      r.loops[k := Some(LoopDev(name, f))],
      if key == "none" || name in r.dms then r.dms else r.dms[name := Dm(k, U32(r.images[f].sectors - 1))],
      r.containers + [id],
      r.mounted[id := FsOf(ReadSuperblock(w, r.images[f]).value)])
  }

  /**
   * What a mount that fails after its checks leaves behind. The loop device it used is taken down, and so is the
   * mapping once it got that far, whether the mount had set them up or found them.
   */
  function FailedMount(w: Width, r: Resources, file: File, key: string, e: MountEnv): Resources
    requires e.hash.Some?
  {
    var name := e.hash.value;
    var a, free := FirstNamed(r.loops, name), FirstFree(r.loops);
    if a == |r.loops| && !(free < |r.loops| && e.openFile && e.setFd && e.setStatus) then
      if free < |r.loops| && e.openFile && e.setFd then r.(loops := r.loops[free := Some(LoopDev("", file))]) else r
    else
      var k, f := if a < |r.loops| then a else free, if a < |r.loops| then r.loops[a].value.file else file;
      r.(loops := r.loops[k := None], dms := FailedMapping(w, r, f, k, key, e))
  }

  /** The superblock of the file on the loop device can be read, and it is a container. */
  predicate Recognised(w: Width, images: map<File, Image>, f: File, e: MountEnv) {
    e.openDevice && e.getSize && e.read && GoodContainer(w, images, f)
  }

  /** The mappings after a mount that fails on loop device `k`. */
  function FailedMapping(w: Width, r: Resources, f: File, k: nat, key: string, e: MountEnv): map<string, Dm>
    requires e.hash.Some?
  {
    var name := e.hash.value;
    if !Recognised(w, r.images, f, e) || key == "none" || (name !in r.dms && !e.dmCreate) then r.dms
    else if name !in r.dms && !e.dmLoad then r.dms[name := Dm(k, 0)]
    else r.dms - {name}
  }

  lemma SameMapping(w: Width, r: Resources, r': Resources, f: File, k: nat, key: string, e: MountEnv)
    requires e.hash.Some? && r'.images == r.images && r'.dms == r.dms
    ensures FailedMapping(w, r', f, k, key, e) == FailedMapping(w, r, f, k, key, e)
  {
  }

  /**
   * A failed mount changes nothing exactly when neither the loop device nor, on the way past the superblock, the
   * mapping was up before, and no step left a device half made.
   */
  lemma FailedMountKeepsIff(w: Width, r: Resources, file: File, key: string, e: MountEnv)
    requires e.hash.Some? && |r.loops| == LOOP_MAX
    ensures var name := e.hash.value; var free := FirstFree(r.loops);
      var attached := free < LOOP_MAX && e.openFile && e.setFd;
      var mapped := attached && e.setStatus && e.openDevice && e.getSize && e.read && GoodContainer(w, r.images, file) && key != "none";
      FailedMount(w, r, file, key, e) == r <==>
      && FirstNamed(r.loops, name) == LOOP_MAX && !(attached && !e.setStatus)
      && (mapped ==> name !in r.dms && (e.dmCreate ==> e.dmLoad))
  {
    hide GoodContainer;
    var name := e.hash.value;
    var a, free := FirstNamed(r.loops, name), FirstFree(r.loops);
    if a < LOOP_MAX {
      assert r.loops[a] != None;
      assert FailedMount(w, r, file, key, e).loops[a] == None;
    } else if free < LOOP_MAX {
      assert r.loops[free] == None && r.loops[free := None] == r.loops;
      assert r.loops[free := Some(LoopDev("", file))][free] != r.loops[free];
      assert name !in r.dms ==> r.dms - {name} == r.dms;
      assert name in r.dms ==> name !in r.dms - {name};
      assert name !in r.dms ==> name in r.dms[name := Dm(free, 0)];
    }
  }

  lemma CreatedIsFound(images: map<File, Image>, f: File, i: Image)
    requires Find(images, f.id) == None && Fits(f) && f !in images
    ensures Find(images[f := i], f.id) == Some(f)
  {
    assert |PathOf(File(false, f.id))| == 20 + |f.id| && |PathOf(File(true, f.id))| == 22 + |f.id|;
  }

  /**
   * A container created and, after a restart, mounted: found, recognised, mapped over exactly the same sectors, and
   * mounted with the kind of file system it was created with.
   */
  lemma CreateRebootMount(w: Width, r: Resources, q: Request, e: CreateEnv, mb: int, m: MountEnv)
    requires 1 <= mb <= 2047 && (w == Off64 || mb <= 2016)
    requires m == MountEnv(true, e.hash, true, true, true, true, true, true, true, true, true, true)
    ensures q.sectors == Sectors(mb) && Completes(w, r, q, e) ==> (
      var up := Restarted(AfterCreate(w, r, q, e));
      && MountCompletes(w, up, q.id, q.key, m)
      && ReadSuperblock(w, up.images[MountFile(up, q.id, e.hash.value)]) == Some(SbOf(q))
      && AfterMount(w, up, q.id, q.key, m) == Resources(
           AfterCreate(w, r, q, e).images,
           Detached()[0 := Some(LoopDev(e.hash.value, FileOf(q)))],
           if q.key == "none" then map[] else map[e.hash.value := Dm(0, Body(q.sectors))],
           [q.id],
           map[q.id := FsAsked(q.fstype)]))
  {
    hide Body, Sectors, Offset, Legal, Fits, Find, ReadSuperblock;
    if q.sectors == Sectors(mb) && Completes(w, r, q, e) {
      CreatedLayout(w, r, q, e, mb);
      SuperblockFound(w, mb, SbOf(q));
      CreatedIsFound(r.images, FileOf(q), NewImage(w, mb, SbOf(q)));
      var up := Restarted(AfterCreate(w, r, q, e));
      NoLoops(e.hash.value);
      Geometry(mb);
      assert U32(Body(q.sectors)) == Body(q.sectors);
    }
  }

  function Detached(): (loops: seq<Option<LoopDev>>)
    ensures |loops| == 4096 && forall k | 0 <= k < LOOP_MAX :: loops[k] == None
  {
    seq(LOOP_MAX, _ => None)
  }

  lemma NoLoops(name: string)
    ensures FirstFree(Detached()) == 0 && FirstNamed(Detached(), name) == LOOP_MAX
  {
  }

  /** A restart keeps the files and nothing else. */
  function Restarted(r: Resources): Resources { Resources(r.images, Detached(), map[], [], map[]) }

  // ---- The volume manager ----------------------------------------------------------------

  class VolumeManager {
    const width: Width
    var images: map<File, Image>
    var loops: seq<Option<LoopDev>>
    var dms: map<string, Dm>
    var containers: seq<string>
    var mounted: map<string, Fs>

    ghost predicate Valid() reads this { |loops| == LOOP_MAX }

    ghost function Held(): Resources reads this { Resources(images, loops, dms, containers, mounted) }

    constructor (w: Width, files: map<File, Image>)
      ensures Valid() && width == w && Held() == Resources(files, Detached(), map[], [], map[])
    {
      width, images, loops, dms := w, files, Detached(), map[];
      containers, mounted := [], map[];
    }

    method IsLegalAsecId(id: string) returns (legal: bool)
      ensures legal <==> Legal(id)
    {
      if id == "" { return false; }
      if id[0] == '.' || id[|id| - 1] == '.' { return false; }
      for i := 0 to |id|
        invariant forall j | 0 <= j < i :: LegalChar(id[j])
        invariant forall j | 1 <= j < i :: !(id[j - 1] == '.' && id[j] == '.')
      {
        if id[i] == '.' {
          if id[i - 1] == '.' { return false; }
        } else if id[i] != '_' && id[i] != '-' {
          if !('a' <= id[i] <= 'z') && !('A' <= id[i] <= 'Z') && !('0' <= id[i] <= '9') { return false; }
        }
      }
      legal := true;
    }

    method LookupActive(name: string) returns (k: nat)
      requires Valid()
      ensures k == FirstNamed(loops, name)
    {
      k := 0;
      while k < LOOP_MAX
        invariant k <= LOOP_MAX
        invariant forall j | 0 <= j < k :: loops[j] == None || loops[j].value.name != name
      {
        if loops[k].Some? && loops[k].value.name == name { return; }
        k := k + 1;
      }
    }

    /** Attaching fails without trace except when the device cannot be named after the file is attached. */
    method LoopCreate(name: string, file: File, openFile: bool, setFd: bool, setStatus: bool) returns (rc: int, k: nat)
      requires Valid()
      modifies `loops
      ensures Valid() && k == FirstFree(old(loops))
      ensures rc == 0 <==> k < LOOP_MAX && openFile && setFd && setStatus
      ensures rc == 0 ==> loops == old(loops)[k := Some(LoopDev(name, file))]
      ensures rc != 0 ==> loops == if k < LOOP_MAX && openFile && setFd then old(loops)[k := Some(LoopDev("", file))] else old(loops)
    {
      k := 0;
      while k < LOOP_MAX && loops[k].Some?
        invariant k <= LOOP_MAX && forall j | 0 <= j < k :: loops[j].Some?
      {
        k := k + 1;
      }
      rc := -1;
      if k == LOOP_MAX { return; }
      if !openFile { return; }
      if !setFd { return; }
      loops := loops[k := Some(LoopDev("", file))];
      if !setStatus { return; }
      loops := loops[k := Some(LoopDev(name, file))];
      rc := 0;
    }

    method DevmapperCreate(name: string, loop: nat, sectors: nat, create: bool, load: bool) returns (rc: int)
      modifies `dms
      ensures rc == 0 <==> name !in old(dms) && create && load
      ensures rc == 0 ==> dms == old(dms)[name := Dm(loop, sectors)]
      ensures rc != 0 ==> dms == if name !in old(dms) && create then old(dms)[name := Dm(loop, 0)] else old(dms)
    {
      if name in dms || !create { return -1; }
      dms := dms[name := Dm(loop, 0)];
      if !load { return -1; }
      dms := dms[name := Dm(loop, sectors)];
      return 0;
    }

    /** The cleanup that every later failure of a creation runs. */
    method Undo(dm: bool, name: string, k: nat, file: File)
      requires Valid() && k < LOOP_MAX
      modifies `dms, `loops, `images
      ensures Valid() && dms == (if dm then old(dms) - {name} else old(dms))
      ensures loops == old(loops)[k := None] && images == old(images) - {file}
    {
      if dm {
        dms := dms - {name};
      }
      loops := loops[k := None];
      images := images - {file};
    }

    /**
     * All or nothing: a creation that fails leaves image, loop device, mapping, container list and mounts as they were,
     * except in the three cases named above, each of which leaves exactly one thing behind.
     */
    method CreateAsec(q: Request, e: CreateEnv) returns (rc: int)
      requires Valid()
      modifies this
      ensures Valid()
      ensures rc == 0 <==> Completes(width, old(Held()), q, e)
      ensures rc == 0 ==> Held() == AfterCreate(width, old(Held()), q, e)
      ensures LeavesStub(width, old(Held()), q, e) ==> Held() == old(Held()).(images := old(images)[FileOf(q) := Image(0, map[])])
      ensures LeavesLoop(width, old(Held()), q, e) ==>
        Held() == old(Held()).(loops := old(loops)[FirstFree(old(loops)) := Some(LoopDev("", FileOf(q)))])
      ensures LeavesDm(width, old(Held()), q, e) ==> Held() == old(Held()).(dms := old(dms)[e.hash.value := Dm(FirstFree(old(loops)), 0)])
      ensures rc != 0 ==>
        (LeavesStub(width, old(Held()), q, e) || LeavesLoop(width, old(Held()), q, e) || LeavesDm(width, old(Held()), q, e) || Held() == old(Held()))
    {
      hide Body, Offset, Legal, Fits, Find, DevicesUp, Fills, LoopStuck, DmStuck, U32, FirstFree;
      StuckIsDown(loops, dms, q, e);
      rc := -1;
      var legal := IsLegalAsecId(q.id);
      if !legal { return; }
      if q.fstype != "none" && q.fstype != "ext4" && q.fstype != "fat" { return; }
      if q.sectors < (1024 * 1024) / 512 { return; }
      if e.volumeNamed { return; }
      if Find(images, q.id) != None { return; }
      var file := FileOf(q);
      if !Fits(file) { return; }
      if file in images { return; }
      var size := 0;
      rc, size := CreateImageFile(file, Body(q.sectors), e);
      if rc != 0 { return; }
      assert ImageMade(width, old(Held()), q, e);
      PutThenDrop(old(images), file, images[file]);
      rc := BuildContainer(q, e, file, size);
      if rc == 0 {
        containers := containers + [q.id];
      }
    }

    method CreateImageFile(file: File, body: nat, e: CreateEnv) returns (rc: int, size: int)
      requires file !in images
      modifies `images
      ensures size == Offset(width, U32(body + 1))
      ensures rc == 0 <==> e.creat && e.truncate && size >= 0
      ensures rc == 0 ==> images == old(images)[file := Image(size / 512, map[])]
      ensures rc != 0 ==> images == if e.creat then old(images)[file := Image(0, map[])] else old(images)
    {
      size := Offset(width, U32(body + 1));
      rc := -1;
      if !e.creat { return; }
      images := images[file := Image(0, map[])];
      if !e.truncate || size < 0 { return; }
      images := images[file := Image(size / 512, map[])];
      rc := 0;
    }

    /** From the image file on: whatever fails, the image goes again. */
    method BuildContainer(q: Request, e: CreateEnv, file: File, size: int) returns (rc: int)
      requires Valid() && size >= 0 && file in images && images[file] == Image(size / 512, map[])
      modifies `images, `loops, `dms, `mounted
      ensures Valid()
      ensures rc == 0 <==> DevicesUp(old(loops), old(dms), q, e) && Fills(q, e, size, Offset(width, Body(q.sectors)))
      ensures rc == 0 ==> (
        var k, body, at := FirstFree(old(loops)), Body(q.sectors), Offset(width, Body(q.sectors));
        && at >= 0
        && images == old(images)[file := Image(size / 512, map[at / 512 := SbOf(q)])]
        && loops == old(loops)[k := Some(LoopDev(e.hash.value, file))]
        && dms == (if q.key == "none" then old(dms) else old(dms)[e.hash.value := Dm(k, body)])
        && mounted == (if q.fstype == "none" then old(mounted) else old(mounted)[q.id := FsAsked(q.fstype)]))
      ensures rc != 0 ==> images == old(images) - {file} && mounted == old(mounted)
      ensures rc != 0 ==>
        loops == if LoopStuck(old(loops), e) then old(loops)[FirstFree(old(loops)) := Some(LoopDev("", file))] else old(loops)
      ensures rc != 0 ==>
        dms == if DmStuck(old(loops), old(dms), q, e) then old(dms)[e.hash.value := Dm(FirstFree(old(loops)), 0)] else old(dms)
    {
      hide Body, Offset, FirstFree;
      rc := -1;
      if e.hash == None {
        images := images - {file};
        return;
      }
      var name, k, dm, body := e.hash.value, 0, q.key != "none", Body(q.sectors);
      rc, k := AttachDevices(q, e, file, body);
      if rc != 0 {
        images := images - {file};
        return;
      }
      rc := FillContainer(q, e, file, size, Offset(width, body));
      if rc != 0 {
        if dm { PutThenDrop(old(dms), name, Dm(k, body)); }
        Undo(dm, name, k, file);
        assert loops == old(loops);
      }
    }

    /** The loop device over the image and, with a key, the mapping over the loop device. */
    method AttachDevices(q: Request, e: CreateEnv, file: File, body: nat) returns (rc: int, k: nat)
      requires Valid() && e.hash.Some?
      modifies `loops, `dms
      ensures Valid() && k == FirstFree(old(loops))
      ensures rc == 0 <==> DevicesUp(old(loops), old(dms), q, e)
      ensures rc == 0 ==> loops == old(loops)[k := Some(LoopDev(e.hash.value, file))] && old(loops)[k] == None
      ensures rc == 0 ==> dms == if q.key == "none" then old(dms) else old(dms)[e.hash.value := Dm(k, body)]
      ensures rc != 0 ==> loops == if LoopStuck(old(loops), e) then old(loops)[k := Some(LoopDev("", file))] else old(loops)
      ensures rc != 0 ==> dms == if DmStuck(old(loops), old(dms), q, e) then old(dms)[e.hash.value := Dm(k, 0)] else old(dms)
    {
      rc, k := LoopCreate(e.hash.value, file, e.openFile, e.setFd, e.setStatus);
      if rc != 0 { return; }
      if q.key != "none" {
        rc := DevmapperCreate(e.hash.value, k, body, e.dmCreate, e.dmLoad);
        if rc != 0 {
          loops := loops[k := None];
          assert loops == old(loops);
        }
      }
    }

    /** Superblock, file system and mount, on devices that are set up. */
    method FillContainer(q: Request, e: CreateEnv, file: File, size: int, at: int) returns (rc: int)
      requires size >= 0 && file in images && images[file] == Image(size / 512, map[])
      modifies `images, `mounted
      ensures rc == 0 <==> Fills(q, e, size, at)
      ensures rc == 0 ==> images == old(images)[file := Image(size / 512, map[at / 512 := SbOf(q)])]
      ensures rc == 0 ==> mounted == if q.fstype == "none" then old(mounted) else old(mounted)[q.id := FsAsked(q.fstype)]
      ensures rc != 0 ==> mounted == old(mounted) && file in images && images == old(images)[file := images[file]]
    {
      rc := -1;
      if !e.openDevice { return; }
      if !e.seek || at < 0 { return; }
      if !e.write || at / 512 >= size / 512 { return; }
      images := images[file := Image(size / 512, map[at / 512 := SbOf(q)])];
      if q.fstype != "none" {
        if !e.mountPath { return; }
        if !e.format { return; }
        if !e.mkdir { return; }
        if !e.mount { return; }
        mounted := mounted[q.id := if q.fstype == "ext4" then Ext4 else Fat];
      }
      rc := 0;
    }

    method LookupInfo(k: nat, e: MountEnv) returns (rc: int, sb: Superblock, sectors: nat)
      requires Valid() && k < LOOP_MAX && loops[k].Some?
      modifies `loops
      ensures Valid()
      ensures var f := old(loops[k]).value.file;
        rc == 0 <==> (e.openDevice && e.getSize && e.read && f in images && ReadSuperblock(width, images[f]).Some?)
      ensures rc == 0 ==> loops == old(loops)
      ensures var f := old(loops[k]).value.file;
        rc == 0 ==> (Some(sb) == ReadSuperblock(width, images[f]) && sectors == images[f].sectors)
      ensures rc != 0 ==> loops == old(loops)[k := None]
    {
      rc, sb, sectors := -1, BLANK, 0;
      var file := loops[k].value.file;
      if !e.openDevice || !e.getSize || !e.read || file !in images || ReadSuperblock(width, images[file]) == None {
        loops := loops[k := None];
        return;
      }
      sectors := images[file].sectors;
      sb := ReadSuperblock(width, images[file]).value;
      rc := 0;
    }

    /**
     * A failed mount touches no file, container or other mount; when no device of the container was up before, it also
     * leaves the devices as they were, unless naming the loop device or loading the mapping is what failed.
     */
    method MountAsec(id: string, key: string, e: MountEnv) returns (rc: int)
      requires Valid()
      modifies this
      ensures Valid()
      ensures rc == 0 <==> MountCompletes(width, old(Held()), id, key, e)
      ensures rc == 0 ==> Held() == AfterMount(width, old(Held()), id, key, e)
      ensures rc != 0 && MountProceeds(old(Held()), id, e) ==>
        Held() == FailedMount(width, old(Held()), Find(old(images), id).value, key, e)
      ensures rc != 0 && !MountProceeds(old(Held()), id, e) ==> Held() == old(Held())
    {
      hide Legal, Find, ReadSuperblock;
      rc := -1;
      var legal := IsLegalAsecId(id);
      if !legal { return; }
      var found := Find(images, id);
      if found == None { return; }
      if !e.mountPath { return; }
      if id in mounted { return; }
      if e.hash == None { return; }
      assert MountProceeds(old(Held()), id, e);
      var fs;
      rc, fs := AttachAndMap(found.value, key, e);
      if rc != 0 { return; }
      containers := containers + [id];
      mounted := mounted[id := fs];
    }

    method AttachAndMap(file: File, key: string, e: MountEnv) returns (rc: int, fs: Fs)
      requires Valid() && e.hash.Some?
      modifies `loops, `dms
      ensures Valid()
      ensures var name := e.hash.value;
        var k := FirstNamed(old(loops), name);
        var f := if k < LOOP_MAX then old(loops[k]).value.file else file;
        rc == 0 <==> (
          && (k < LOOP_MAX || (FirstFree(old(loops)) < LOOP_MAX && e.openFile && e.setFd && e.setStatus))
          && e.openDevice && e.getSize && e.read && GoodContainer(width, images, f)
          && (key != "none" && name !in old(dms) ==> e.dmCreate && e.dmLoad) && e.mkdir && e.mount)
      ensures rc == 0 ==> (
        var name := e.hash.value;
        var a, f := FirstNamed(old(loops), name), FirstFree(old(loops));
        var k := if a < LOOP_MAX then a else f;
        && k < LOOP_MAX && loops == (if a < LOOP_MAX then old(loops) else old(loops)[f := Some(LoopDev(name, file))])
        && GoodContainer(width, images, loops[k].value.file) && fs == FsOf(ReadSuperblock(width, images[loops[k].value.file]).value)
        && dms == (if key == "none" || name in old(dms) then old(dms) else old(dms)[name := Dm(k, U32(images[loops[k].value.file].sectors - 1))]))
      ensures rc != 0 ==> Held() == FailedMount(width, old(Held()), file, key, e)
    {
      hide ReadSuperblock, FirstFree, FirstNamed, U32, GoodContainer, FailedMapping;
      var name := e.hash.value;
      fs := Fat;
      var k := LookupActive(name);
      if k == LOOP_MAX {
        rc, k := LoopCreate(name, file, e.openFile, e.setFd, e.setStatus);
        if rc != 0 { return; }
      }
      ghost var up := Held();
      rc, fs := MapAndMount(k, key, e);
      SameMapping(width, old(Held()), up, up.loops[k].value.file, k, key, e);
      assert FirstNamed(old(loops), name) == LOOP_MAX ==> up.loops[k := None] == old(loops)[k := None];
    }

    /** Superblock, mapping and mount on a loop device that is up; a failure takes it down. */
    method MapAndMount(k: nat, key: string, e: MountEnv) returns (rc: int, fs: Fs)
      requires Valid() && e.hash.Some? && k < LOOP_MAX && loops[k].Some?
      modifies `loops, `dms
      ensures Valid()
      ensures var name, f := e.hash.value, old(loops[k]).value.file;
        rc == 0 <==> (
          Recognised(width, images, f, e) && (key != "none" && name !in old(dms) ==> e.dmCreate && e.dmLoad) && e.mkdir && e.mount)
      ensures rc == 0 ==> loops == old(loops) && GoodContainer(width, images, loops[k].value.file)
      ensures rc == 0 ==> fs == FsOf(ReadSuperblock(width, images[loops[k].value.file]).value)
      ensures rc == 0 && (key == "none" || e.hash.value in old(dms)) ==> dms == old(dms)
      ensures rc == 0 && key != "none" && e.hash.value !in old(dms) ==>
        dms == old(dms)[e.hash.value := Dm(k, U32(images[loops[k].value.file].sectors - 1))]
      ensures rc != 0 ==> loops == old(loops)[k := None] && dms == FailedMapping(width, old(Held()), old(loops[k]).value.file, k, key, e)
    {
      hide ReadSuperblock, U32;
      var name := e.hash.value;
      var sb: Superblock, sectors: nat;
      fs := Fat;
      rc, sb, sectors := LookupInfo(k, e);
      if rc != 0 { return; }
      if sb.magic != MAGIC || sb.ver != VERSION {
        loops := loops[k := None];
        rc := -1;
        return;
      }
      fs := if sb.opts % 2 == 1 then Ext4 else Fat;
      var nr: int := sectors;
      sectors := U32(nr - 1);
      var dm := key != "none";
      if dm && name !in dms {
        rc := DevmapperCreate(name, k, sectors, e.dmCreate, e.dmLoad);
        if rc != 0 {
          loops := loops[k := None];
          return;
        }
      }
      if !e.mkdir || !e.mount {
        if dm {
          dms := dms - {name};
        }
        loops := loops[k := None];
        rc := -1;
      }
    }
  }
}
