/**
 * Turning encryption on in place: the data partition is read and rewritten through the
 * dm-crypt mapping block by block, guarded by the "in progress" flag in the footer.
 */
module CryptEnable {
  import opened Util
  import opened CryptFooter

  const SECTORS_PER_BUF := 8
  const FOOTER_SECTORS := 32

  /** `DivideByZero`: the progress computation divides by one percent of the total, which may be zero. */
  datatype Outcome = Done | IoError | DivideByZero

  /** dm-crypt: what is stored for plain sector contents at a sector number. */
  type Cipher = (nat, Bytes) -> Bytes

  /** `now` is `plain` with exactly its first `k` sectors encrypted. */
  ghost predicate EncryptedTo(enc: Cipher, plain: seq<Bytes>, now: seq<Bytes>, k: nat) {
    && |now| == |plain|
    && forall i | 0 <= i < |plain| :: now[i] == if i < k then enc(i, plain[i]) else plain[i]
  }

  /**
   * A record of the loop: the sectors in the order they were read, and every image the disk went
   * through with the number of sectors encrypted in it.
   */
  datatype Trace = Trace(readLog: seq<nat>, images: seq<seq<Bytes>>, cuts: seq<nat>)

  /** Every image, and the disk now, is the original with a prefix of at most `size` sectors encrypted. */
  ghost predicate Safe(enc: Cipher, plain: seq<Bytes>, now: seq<Bytes>, tr: Trace, size: nat) {
    && |tr.images| == |tr.cuts|
    && (forall j | 0 <= j < |tr.images| :: tr.cuts[j] <= size && EncryptedTo(enc, plain, tr.images[j], tr.cuts[j]))
    && EndsIn(plain, now, tr)
  }

  /** The disk now is the last image of the trace. */
  ghost predicate EndsIn(plain: seq<Bytes>, now: seq<Bytes>, tr: Trace) {
    now == if tr.images == [] then plain else tr.images[|tr.images| - 1]
  }

  ghost predicate InOrder(readLog: seq<nat>, k: nat) {
    |readLog| == k && forall s | 0 <= s < k :: readLog[s] == s
  }

  ghost predicate At(enc: Cipher, plain: seq<Bytes>, now: seq<Bytes>, tr: Trace, size: nat, k: nat) {
    Safe(enc, plain, now, tr, size) && InOrder(tr.readLog, k) && EncryptedTo(enc, plain, now, k)
  }

  /** One percent of the total is a whole number of 4 KB buffers, and the division is reached with the first buffer. */
  predicate Divides0(size: nat, totSize: nat) { size >= SECTORS_PER_BUF && totSize < 100 * SECTORS_PER_BUF }

  lemma DividesIff(io: Io, size: nat, totSize: nat)
    ensures OutcomeOf(io, size, totSize) == DivideByZero <==> io.opens && size >= 8 && totSize < 800
  {
  }

  predicate Increasing(s: seq<nat>) { forall i | 0 < i < |s| :: s[i - 1] < s[i] }

  /** The contents of the 4K buffer, sector by sector. */
  type Buffer = s: seq<Bytes> | |s| == SECTORS_PER_BUF witness seq(SECTORS_PER_BUF, _ => [])

  /**
   * How one device behaves: whether both descriptors open, how many sectors the n-th transfer moves (reads and
   * writes alternate; none is an error), and what the buffer holds at the start.
   */
  datatype Io = Io(opens: bool, moved: nat -> nat, junk: Buffer)

  /** The sectors the k-th transfer asks for, and how many transfers there are. */
  function Want(size: nat, k: nat): nat { if k < 2 * (size / SECTORS_PER_BUF) then SECTORS_PER_BUF else 1 }

  function Transfers(size: nat): nat { 2 * (size / SECTORS_PER_BUF + size % SECTORS_PER_BUF) }

  ghost predicate FullBelow(io: Io, size: nat, n: nat) { forall k: nat | k < n :: io.moved(k) >= Want(size, k) }

  /** Every transfer moves all it is asked to. */
  ghost predicate AllFull(io: Io, size: nat) { size == 0 || (io.opens && FullBelow(io, size, Transfers(size))) }

  ghost predicate MovesBelow(io: Io, n: nat) { forall k: nat | k < n :: io.moved(k) > 0 }

  /** A transfer moves all of it or nothing. */
  ghost predicate NoneShort(io: Io, size: nat) {
    forall k: nat | k < Transfers(size) :: io.moved(k) == 0 || io.moved(k) >= Want(size, k)
  }

  /** A short transfer counts as a success. */
  ghost function OutcomeOf(io: Io, size: nat, totSize: nat): Outcome {
    if !io.opens then IoError
    else if Divides0(size, totSize) then DivideByZero
    else if MovesBelow(io, Transfers(size)) then Done
    else IoError
  }

  /** What the buffer holds at a sector's place before that sector is read. */
  function Stale(plain: seq<Bytes>, junk: Buffer, p: nat): Bytes
    requires p < |plain|
  {
    if p < SECTORS_PER_BUF then junk[p] else plain[p - SECTORS_PER_BUF]
  }

  /** A sector left alone, and one written from a stale buffer, can be told from one that was encrypted. */
  ghost predicate Telling(enc: Cipher, plain: seq<Bytes>, junk: Buffer, size: nat) {
    forall p: nat | p < size && p < |plain| ::
      enc(p, plain[p]) != plain[p] && enc(p, plain[p]) != enc(p, Stale(plain, junk, p))
  }

  /** Some sector that should be done is not: one never reached, or one written with something else. */
  ghost predicate Wrong(enc: Cipher, plain: seq<Bytes>, now: seq<Bytes>, wp: nat, k: nat) {
    wp < k || exists p: nat :: p < wp && p < |now| && p < |plain| && now[p] != enc(p, plain[p])
  }

  ghost predicate Stales(plain: seq<Bytes>, junk: Buffer, buf: seq<Bytes>, k: nat) {
    |buf| == SECTORS_PER_BUF &&
    (k % SECTORS_PER_BUF == 0 ==> forall q: nat | q < SECTORS_PER_BUF && k + q < |plain| :: buf[q] == Stale(plain, junk, k + q))
  }

  /** The device and the buffer after `k` sectors have been asked for; `rp` and `wp` are the file positions. */
  datatype Copy = Copy(now: seq<Bytes>, buf: seq<Bytes>, rp: nat, wp: nat, k: nat, full: bool)

  ghost predicate Copying(enc: Cipher, plain: seq<Bytes>, junk: Buffer, size: nat, tr: Trace, s: Copy) {
    && |s.now| == |plain| && |s.buf| == SECTORS_PER_BUF && s.rp <= s.k && s.wp <= s.k <= size <= |plain|
    && (forall i | s.wp <= i < |plain| :: s.now[i] == plain[i]) && EndsIn(plain, s.now, tr)
    && (s.full ==>
          s.rp == s.k && s.wp == s.k && At(enc, plain, s.now, tr, size, s.k) && Stales(plain, junk, s.buf, s.k))
    && (!s.full && Telling(enc, plain, junk, size) ==> Wrong(enc, plain, s.now, s.wp, s.k))
  }

  function Least(a: nat, b: nat): nat { if a <= b then a else b }

  /** One read from the raw device and one write through the mapping, both of which may be short. */
  function Moved(enc: Cipher, s: Copy, n: nat, got: nat, put: nat): Copy
    requires got <= n <= |s.buf| && put <= n && s.rp + n <= |s.now| && s.wp + n <= |s.now|
  {
    var buf := s.now[s.rp..s.rp + got] + s.buf[got..];
    Copy(Mapped(enc, s.now, s.wp, buf[..put]), buf, s.rp + got, s.wp + put, s.k + n, s.full && got == n && put == n)
  }

  function Mapped(enc: Cipher, now: seq<Bytes>, wp: nat, data: seq<Bytes>): (r: seq<Bytes>)
    requires wp + |data| <= |now|
    ensures |r| == |now| && forall i | 0 <= i < |now| :: r[i] == if wp <= i < wp + |data| then enc(i, data[i - wp]) else now[i]
  {
    now[..wp] + seq(|data|, k requires 0 <= k < |data| => enc(wp + k, data[k])) + now[wp + |data|..]
  }

  function Logged(tr: Trace, s: Copy, got: nat, t: Copy): Trace {
    Trace(tr.readLog + seq(got, k => s.rp + k), tr.images + [t.now], tr.cuts + [t.k])
  }

  /** A chunk: full transfers move the boundary on, the first short one leaves a sector wrong for good. */
  lemma ChunkStep(enc: Cipher, plain: seq<Bytes>, junk: Buffer, size: nat, tr: Trace, s: Copy, n: nat, got: nat, put: nat)
    requires Copying(enc, plain, junk, size, tr, s) && s.k + n <= size
    requires (n == SECTORS_PER_BUF && s.k % n == 0) || (n == 1 && s.k % SECTORS_PER_BUF < SECTORS_PER_BUF - 1)
    requires 0 < got <= n && 0 < put <= n
    ensures var t := Moved(enc, s, n, got, put); Copying(enc, plain, junk, size, Logged(tr, s, got, t), t)
  {
    hide At, Telling, Wrong, Moved, Stales;
    MovedFacts(enc, s, n, got, put);
    var t := Moved(enc, s, n, got, put);
    if t.full {
      FullChunk(enc, plain, size, tr, s, n);
      StalesAfter(plain, junk, s, t.buf, n);
    } else if s.full {
      FirstShort(enc, plain, junk, size, tr, s, n, got, put);
    } else if Telling(enc, plain, junk, size) {
      StaysWrong(enc, plain, s, n, got, put);
    }
  }

  /** After a full transfer of a block the buffer holds the block before the next one. */
  lemma StalesAfter(plain: seq<Bytes>, junk: Buffer, s: Copy, buf: seq<Bytes>, n: nat)
    requires |s.now| == |plain| && s.rp == s.wp == s.k && s.k + n <= |plain|
    requires forall i | s.wp <= i < |plain| :: s.now[i] == plain[i]
    requires (n == SECTORS_PER_BUF && s.k % n == 0) || (n == 1 && s.k % SECTORS_PER_BUF < SECTORS_PER_BUF - 1)
    requires |buf| == SECTORS_PER_BUF && forall q | 0 <= q < n :: buf[q] == s.now[s.rp + q]
    ensures Stales(plain, junk, buf, s.k + n)
  {
    if n == 1 {
      assert (s.k + 1) % SECTORS_PER_BUF == s.k % SECTORS_PER_BUF + 1;
    }
  }

  lemma MovedFacts(enc: Cipher, s: Copy, n: nat, got: nat, put: nat)
    requires got <= n <= |s.buf| && put <= n && s.rp + n <= |s.now| && s.wp + n <= |s.now|
    ensures var t := Moved(enc, s, n, got, put);
      && |t.now| == |s.now| && |t.buf| == |s.buf| && t.rp == s.rp + got && t.wp == s.wp + put && t.k == s.k + n
      && t.full == (s.full && got == n && put == n)
      && (forall i | t.wp <= i < |t.now| :: t.now[i] == s.now[i])
      && forall q | 0 <= q < |t.buf| :: t.buf[q] == if q < got then s.now[s.rp + q] else s.buf[q]
  {
  }

  lemma StaysWrong(enc: Cipher, plain: seq<Bytes>, s: Copy, n: nat, got: nat, put: nat)
    requires got <= n <= |s.buf| && 0 < put <= n && s.rp + n <= |s.now| && s.wp + n <= |s.now| == |plain|
    requires Wrong(enc, plain, s.now, s.wp, s.k)
    ensures var t := Moved(enc, s, n, got, put); Wrong(enc, plain, t.now, t.wp, t.k)
  {
    var t := Moved(enc, s, n, got, put);
    if s.wp >= s.k {
      var p: nat :| p < s.wp && p < |s.now| && s.now[p] != enc(p, plain[p]);
      assert t.now[p] == s.now[p];
    }
  }

  lemma FullChunk(enc: Cipher, plain: seq<Bytes>, size: nat, tr: Trace, s: Copy, n: nat)
    requires At(enc, plain, s.now, tr, size, s.k) && s.k + n <= size <= |plain| == |s.now|
    requires n <= |s.buf| && s.rp == s.wp == s.k
    ensures var t := Moved(enc, s, n, n, n); At(enc, plain, t.now, Logged(tr, s, n, t), size, t.k)
  {
    hide Safe, InOrder;
    var t := Moved(enc, s, n, n, n);
    ChunkDone(enc, plain, s.now, t.now, tr, size, s.k, n);
  }

  lemma FirstShort(enc: Cipher, plain: seq<Bytes>, junk: Buffer, size: nat, tr: Trace, s: Copy, n: nat, got: nat, put: nat)
    requires Copying(enc, plain, junk, size, tr, s) && s.full && s.k + n <= size
    requires (n == SECTORS_PER_BUF && s.k % n == 0) || n == 1
    requires 0 < got <= n && 0 < put <= n && !(got == n && put == n)
    ensures var t := Moved(enc, s, n, got, put); Telling(enc, plain, junk, size) ==> Wrong(enc, plain, t.now, t.wp, t.k)
  {
    hide At, Stales, Stale, Mapped, Telling;
    var t := Moved(enc, s, n, got, put);
    if put == n && Telling(enc, plain, junk, size) {
      var p := s.k + got;
      StaleSector(plain, junk, s.buf, s.k, got);
      TellsApart(enc, plain, junk, size, p);
      assert t.buf[got] == s.buf[got];
      assert t.now[p] == enc(p, t.buf[got]);
    }
  }

  lemma StaleSector(plain: seq<Bytes>, junk: Buffer, buf: seq<Bytes>, k: nat, q: nat)
    requires Stales(plain, junk, buf, k) && k % SECTORS_PER_BUF == 0 && q < SECTORS_PER_BUF && k + q < |plain|
    ensures buf[q] == Stale(plain, junk, k + q)
  {
  }

  lemma TellsApart(enc: Cipher, plain: seq<Bytes>, junk: Buffer, size: nat, p: nat)
    requires Telling(enc, plain, junk, size) && p < size && p < |plain|
    ensures enc(p, plain[p]) != enc(p, Stale(plain, junk, p))
  {
  }

  /** A device stopped short of its size is not encrypted; nor is one with a wrong sector. */
  lemma WrongNotEncrypted(enc: Cipher, plain: seq<Bytes>, junk: Buffer, size: nat, tr: Trace, s: Copy)
    requires Copying(enc, plain, junk, size, tr, s) && Telling(enc, plain, junk, size) && (s.k < size || !s.full)
    ensures !EncryptedTo(enc, plain, s.now, size)
  {
    hide At;
    if s.wp < size {
      assert s.now[s.wp] == plain[s.wp] != enc(s.wp, plain[s.wp]);
    } else {
      var p: nat :| p < s.wp && s.now[p] != enc(p, plain[p]);
    }
  }

  lemma CopyBounds(enc: Cipher, plain: seq<Bytes>, junk: Buffer, size: nat, tr: Trace, s: Copy)
    requires Copying(enc, plain, junk, size, tr, s)
    ensures |s.now| == |plain| && |s.buf| == SECTORS_PER_BUF && s.rp <= s.k && s.wp <= s.k <= size <= |plain|
  {
  }

  lemma AtStart(enc: Cipher, plain: seq<Bytes>, size: nat)
    ensures At(enc, plain, plain, Trace([], [], []), size, 0)
    ensures Increasing([])
  {
  }

  lemma IncreasingAppend(s: seq<nat>, x: nat)
    requires Increasing(s) && (s != [] ==> s[|s| - 1] < x)
    ensures Increasing(s + [x])
  {
  }

  /** A chunk read and written moves the boundary on by its length. */
  lemma ChunkDone(enc: Cipher, plain: seq<Bytes>, before: seq<Bytes>, now: seq<Bytes>, tr: Trace, size: nat, first: nat, n: nat)
    requires At(enc, plain, before, tr, size, first) && first + n <= size && EncryptedTo(enc, plain, now, first + n)
    ensures var done := Trace(tr.readLog + seq(n, k => first + k), tr.images + [now], tr.cuts + [first + n]);
      At(enc, plain, now, done, size, first + n)
  {
    hide EncryptedTo;
  }

  lemma CopyStart(enc: Cipher, plain: seq<Bytes>, junk: Buffer, size: nat)
    requires size <= |plain|
    ensures Copying(enc, plain, junk, size, Trace([], [], []), Copy(plain, junk, 0, 0, 0, true))
    ensures Increasing([])
  {
    hide Safe, InOrder, EncryptedTo;
    AtStart(enc, plain, size);
  }

  lemma FullStep(io: Io, size: nat, k: nat)
    ensures FullBelow(io, size, 0) && MovesBelow(io, 0)
    ensures FullBelow(io, size, k + 2) <==>
      FullBelow(io, size, k) && io.moved(k) >= Want(size, k) && io.moved(k + 1) >= Want(size, k + 1)
    ensures MovesBelow(io, k + 2) <==> MovesBelow(io, k) && io.moved(k) > 0 && io.moved(k + 1) > 0
  {
  }

  /** What holds of the device when the loop stops after `n` transfers. */
  lemma Stopped(enc: Cipher, plain: seq<Bytes>, io: Io, size: nat, tr: Trace, s: Copy, n: nat)
    requires Copying(enc, plain, io.junk, size, tr, s) && n <= Transfers(size)
    requires s.full == FullBelow(io, size, n) && MovesBelow(io, n)
    ensures s.full ==> At(enc, plain, s.now, tr, size, s.k)
    ensures NoneShort(io, size) ==> s.full
    ensures Telling(enc, plain, io.junk, size) && (s.k < size || !s.full) ==> !EncryptedTo(enc, plain, s.now, size)
    ensures |s.now| == |plain| && EndsIn(plain, s.now, tr) && forall i | size <= i < |plain| :: s.now[i] == plain[i]
  {
    hide At, EncryptedTo;
    if Telling(enc, plain, io.junk, size) && (s.k < size || !s.full) {
      WrongNotEncrypted(enc, plain, io.junk, size, tr, s);
    }
  }

  /** One read from the raw device into the buffer. */
  method ReadRaw(dev: array<Bytes>, buf: array<Bytes>, rp: nat, got: nat)
    requires dev != buf && got <= buf.Length && rp + got <= dev.Length
    modifies buf
    ensures buf[..] == dev[..][rp..rp + got] + old(buf[..])[got..]
  {
    for k := 0 to got
      invariant forall q | 0 <= q < buf.Length :: buf[q] == if q < k then dev[rp + q] else old(buf[q])
    {
      buf[k] := dev[rp + k];
    }
  }

  /** One write through the mapping: each sector is stored encrypted under its own number. */
  method WriteMapped(dev: array<Bytes>, enc: Cipher, wp: nat, buf: array<Bytes>, put: nat)
    requires dev != buf && put <= buf.Length && wp + put <= dev.Length
    modifies dev
    ensures dev[..] == Mapped(enc, old(dev[..]), wp, buf[..][..put])
  {
    for k := 0 to put
      invariant forall i | 0 <= i < dev.Length :: dev[i] == if wp <= i < wp + k then enc(i, buf[i - wp]) else old(dev[i])
    {
      dev[wp + k] := enc(wp + k, buf[k]);
    }
  }

  /** A read and a write of `n` sectors; only a transfer of nothing is taken for a failure. */
  method CopyChunk(dev: array<Bytes>, buf: array<Bytes>, enc: Cipher, io: Io, step: nat, n: nat, rp: nat, wp: nat,
                   ghost plain: seq<Bytes>, ghost size: nat, ghost tr: Trace, ghost s: Copy)
    returns (ok: bool, rp': nat, wp': nat, ghost tr': Trace)
    requires dev != buf && s == Copy(dev[..], buf[..], rp, wp, s.k, s.full) && s.k + n <= size
    requires Copying(enc, plain, io.junk, size, tr, s)
    requires (n == SECTORS_PER_BUF && s.k % n == 0) || (n == 1 && s.k % SECTORS_PER_BUF < SECTORS_PER_BUF - 1)
    modifies dev, buf
    ensures ok <==> io.moved(step) > 0 && io.moved(step + 1) > 0
    ensures ok ==> Copying(enc, plain, io.junk, size, tr',
      Copy(dev[..], buf[..], rp', wp', s.k + n, s.full && io.moved(step) >= n && io.moved(step + 1) >= n))
    ensures !ok ==> dev[..] == old(dev[..]) && tr'.images == tr.images && tr'.cuts == tr.cuts
  {
    hide Copying, Mapped, Moved, Logged;
    rp', wp', tr', ok := rp, wp, tr, false;
    CopyBounds(enc, plain, io.junk, size, tr, s);
    var got := Least(io.moved(step), n);
    if got == 0 {
      return;
    }
    ReadRaw(dev, buf, rp, got);
    tr' := tr.(readLog := tr.readLog + seq(got, k => rp + k));
    var put := Least(io.moved(step + 1), n);
    if put == 0 {
      return;
    }
    WriteMapped(dev, enc, wp, buf, put);
    rp', wp', ok := rp + got, wp + put, true;
    ghost var t := Moved(enc, s, n, got, put);
    tr' := Logged(tr, s, got, t);
    ChunkStep(enc, plain, io.junk, size, tr, s, n, got, put);
    MovedIs(enc, s, n, got, put, dev[..], buf[..]);
  }

  lemma MovedIs(enc: Cipher, s: Copy, n: nat, got: nat, put: nat, now: seq<Bytes>, buf: seq<Bytes>)
    requires got <= n <= |s.buf| && put <= n && s.rp + n <= |s.now| && s.wp + n <= |s.now|
    requires buf == s.now[s.rp..s.rp + got] + s.buf[got..] && now == Mapped(enc, s.now, s.wp, buf[..put])
    ensures Moved(enc, s, n, got, put) == Copy(now, buf, s.rp + got, s.wp + put, s.k + n, s.full && got == n && put == n)
  {
    hide Mapped;
  }

  /** The copy after `k` sectors and `n` transfers. */
  ghost predicate Copied(enc: Cipher, plain: seq<Bytes>, io: Io, size: nat, tr: Trace, s: Copy, n: nat, k: nat) {
    Copying(enc, plain, io.junk, size, tr, s) && s.full == FullBelow(io, size, n) && MovesBelow(io, n) && s.k == k
  }

  /** The percentage at a block. */
  function Percent(i: nat, before: nat, onePct: nat): (p: nat)
    requires onePct > 0
    ensures onePct * p <= i + before < onePct * p + onePct
  {
    (i + before) / onePct
  }

  /** The percentage shown last, after `n` blocks. */
  function Reached(n: nat, before: nat, onePct: nat): nat
    requires onePct > 0
  {
    if n == 0 then 0 else Percent(n - 1, before, onePct)
  }

  /** Every percentage that the blocks pass through is shown, and no other. */
  ghost predicate ShowsProgress(progress: seq<nat>, n: nat, before: nat, onePct: nat)
    requires onePct > 0
  {
    forall p: nat :: p in progress <==> p > 0 && exists i: nat :: i < n && p == Percent(i, before, onePct)
  }

  lemma NoProgress(before: nat, onePct: nat)
    requires onePct > 0
    ensures ShowsProgress([], 0, before, onePct)
  {
  }

  lemma MoreProgress(progress: seq<nat>, n: nat, before: nat, onePct: nat)
    requires onePct > 0 && ShowsProgress(progress, n, before, onePct)
    ensures var pct, last := Percent(n, before, onePct), Reached(n, before, onePct);
      pct >= last && ShowsProgress(if pct > last then progress + [pct] else progress, n + 1, before, onePct)
  {
    var pct, last := Percent(n, before, onePct), Reached(n, before, onePct);
    if n > 0 { NoLess(n - 1 + before, onePct); }
    hide Percent;
    var shown := if pct > last then progress + [pct] else progress;
    forall p: nat ensures p in shown <==> p > 0 && exists i: nat :: i < n + 1 && p == Percent(i, before, onePct) {
      if pct == last && p == pct > 0 {
        assert p == Percent(n - 1, before, onePct);
      }
    }
  }

  lemma NoLess(a: nat, c: nat)
    requires c > 0
    ensures a / c <= (a + 1) / c
  {
    var q, r := a / c, a % c;
    assert a == c * q + r;
    if r + 1 < c { Quotient(a + 1, c, q, r + 1); } else { Quotient(a + 1, c, q + 1, 0); }
  }

  lemma Quotient(a: nat, c: nat, q: nat, r: nat)
    requires r < c && a == c * q + r
    ensures a / c == q
  {
    var d := a / c - q;
    assert c * d == r - a % c;
    Multiple(c, d);
  }

  lemma Multiple(c: int, d: int)
    requires c > 0
    ensures d > 0 ==> c * d >= c
    ensures d < 0 ==> c * d <= -c
  {
  }

  /** The loop over whole blocks. `progress` is what the progress property is set to. */
  method CopyBlocks(dev: array<Bytes>, buf: array<Bytes>, enc: Cipher, io: Io, numblocks: nat, blocksAlreadyDone: nat,
                    onePct: nat, ghost plain: seq<Bytes>, ghost size: nat, ghost tr0: Trace)
    returns (ok: bool, rp: nat, wp: nat, progress: seq<nat>, ghost tr: Trace)
    requires dev != buf && numblocks == size / SECTORS_PER_BUF && onePct > 0
    requires Copied(enc, plain, io, size, tr0, Copy(dev[..], buf[..], 0, 0, 0, true), 0, 0)
    modifies dev, buf
    ensures ok ==> exists full ::
      Copied(enc, plain, io, size, tr, Copy(dev[..], buf[..], rp, wp, SECTORS_PER_BUF * numblocks, full), 2 * numblocks, SECTORS_PER_BUF * numblocks)
    ensures !ok ==> Abandoned(enc, plain, io, size, tr, dev[..])
    ensures Increasing(progress) && (ok ==> ShowsProgress(progress, numblocks, blocksAlreadyDone, onePct))
  {
    hide Copying, Increasing, FullBelow, MovesBelow, Abandoned, ShowsProgress;
    progress, tr, rp, wp, ok := [], tr0, 0, 0, true;
    IncreasingEmpty();
    NoProgress(blocksAlreadyDone, onePct);
    var curPct := 0;
    ghost var s := Copy(dev[..], buf[..], 0, 0, 0, true);
    for i := 0 to numblocks
      invariant s == Copy(dev[..], buf[..], rp, wp, SECTORS_PER_BUF * i, s.full) && ok
      invariant Copied(enc, plain, io, size, tr, s, 2 * i, SECTORS_PER_BUF * i)
      invariant Increasing(progress) && (progress != [] ==> progress[|progress| - 1] == curPct)
      invariant curPct == Reached(i, blocksAlreadyDone, onePct) && ShowsProgress(progress, i, blocksAlreadyDone, onePct)
    {
      var newPct := (i + blocksAlreadyDone) / onePct;
      assert newPct == Percent(i, blocksAlreadyDone, onePct);
      MoreProgress(progress, i, blocksAlreadyDone, onePct);
      if newPct > curPct {
        IncreasingAppend(progress, newPct);
        curPct := newPct;
        progress := progress + [curPct];
      }
      BlockStep(io, size, i);
      ghost var was := tr;
      ok, rp, wp, tr := CopyChunk(dev, buf, enc, io, 2 * i, SECTORS_PER_BUF, rp, wp, plain, size, tr, s);
      if !ok {
        GaveUp(enc, plain, io, size, was, tr, s, 2 * i);
        return;
      }
      s := Copy(dev[..], buf[..], rp, wp, SECTORS_PER_BUF * (i + 1), FullBelow(io, size, 2 * (i + 1)));
    }
  }

  /** The loop over the remaining sectors. */
  method CopyRest(dev: array<Bytes>, buf: array<Bytes>, enc: Cipher, io: Io, numblocks: nat, remainder: nat, rp0: nat, wp0: nat,
                  ghost plain: seq<Bytes>, ghost size: nat, ghost tr0: Trace, ghost s0: Copy)
    returns (ok: bool, ghost tr: Trace, ghost s: Copy)
    requires dev != buf && numblocks == size / SECTORS_PER_BUF && remainder == size % SECTORS_PER_BUF
    requires s0 == Copy(dev[..], buf[..], rp0, wp0, s0.k, s0.full)
    requires Copied(enc, plain, io, size, tr0, s0, 2 * numblocks, SECTORS_PER_BUF * numblocks)
    modifies dev, buf
    ensures ok ==> s.now == dev[..] && Copied(enc, plain, io, size, tr, s, Transfers(size), size)
    ensures !ok ==> Abandoned(enc, plain, io, size, tr, dev[..])
  {
    hide Copying, FullBelow, MovesBelow, Abandoned;
    var rp, wp := rp0, wp0;
    tr, s, ok := tr0, s0, true;
    for i := 0 to remainder
      invariant s == Copy(dev[..], buf[..], rp, wp, SECTORS_PER_BUF * numblocks + i, s.full) && ok
      invariant Copied(enc, plain, io, size, tr, s, 2 * (numblocks + i), SECTORS_PER_BUF * numblocks + i)
    {
      SectorStep(io, size, i);
      ghost var was := tr;
      ok, rp, wp, tr := CopyChunk(dev, buf, enc, io, 2 * (numblocks + i), 1, rp, wp, plain, size, tr, s);
      if !ok {
        GaveUp(enc, plain, io, size, was, tr, s, 2 * (numblocks + i));
        return;
      }
      s := Copy(dev[..], buf[..], rp, wp, s.k + 1, FullBelow(io, size, 2 * (numblocks + i + 1)));
    }
  }

  /** The two transfers of a block, and of a sector at the end. */
  lemma BlockStep(io: Io, size: nat, i: nat)
    requires i < size / SECTORS_PER_BUF
    ensures Want(size, 2 * i) == Want(size, 2 * i + 1) == SECTORS_PER_BUF && 2 * i + 1 < Transfers(size)
    ensures SECTORS_PER_BUF * (i + 1) <= size && (SECTORS_PER_BUF * i) % SECTORS_PER_BUF == 0
    ensures FullBelow(io, size, 2 * (i + 1)) <==>
      FullBelow(io, size, 2 * i) && io.moved(2 * i) >= SECTORS_PER_BUF && io.moved(2 * i + 1) >= SECTORS_PER_BUF
    ensures MovesBelow(io, 2 * (i + 1)) <==> MovesBelow(io, 2 * i) && io.moved(2 * i) > 0 && io.moved(2 * i + 1) > 0
  {
    hide FullBelow, MovesBelow;
    FullStep(io, size, 2 * i);
  }

  lemma SectorPlace(size: nat, i: nat)
    requires i < size % SECTORS_PER_BUF
    ensures var b := size / SECTORS_PER_BUF; var k := 2 * (b + i);
      && k + 1 < Transfers(size) && SECTORS_PER_BUF * b + i < size
      && (SECTORS_PER_BUF * b + i) % SECTORS_PER_BUF < SECTORS_PER_BUF - 1
      && Want(size, k) == 1 && Want(size, k + 1) == 1
  {
    var b := size / SECTORS_PER_BUF;
    assert size == SECTORS_PER_BUF * b + size % SECTORS_PER_BUF;
  }

  lemma SectorStep(io: Io, size: nat, i: nat)
    requires i < size % SECTORS_PER_BUF
    ensures var b := size / SECTORS_PER_BUF; var k := 2 * (b + i);
      && k + 1 < Transfers(size) && SECTORS_PER_BUF * b + i < size
      && (SECTORS_PER_BUF * b + i) % SECTORS_PER_BUF < SECTORS_PER_BUF - 1
      && (FullBelow(io, size, 2 * (b + i + 1)) <==> FullBelow(io, size, k) && io.moved(k) >= 1 && io.moved(k + 1) >= 1)
      && (MovesBelow(io, 2 * (b + i + 1)) <==> MovesBelow(io, k) && io.moved(k) > 0 && io.moved(k + 1) > 0)
  {
    hide FullBelow, MovesBelow, Want, Transfers;
    SectorPlace(size, i);
    FullStep(io, size, 2 * (size / SECTORS_PER_BUF + i));
  }

  /**
   * cryptfs_enable_inplace: whole 4K blocks, then single sectors. The device ends up encrypted exactly when every
   * transfer is full, while success is reported when none moves nothing.
   */
  method EncryptInplace(dev: array<Bytes>, enc: Cipher, size: nat, alreadyDone: nat, totSize: nat, io: Io)
    returns (r: Outcome, done: nat, progress: seq<nat>, ghost tr: Trace)
    requires size <= dev.Length
    modifies dev
    ensures r == OutcomeOf(io, size, totSize)
    ensures !Divides0(size, totSize) && AllFull(io, size) ==> EncryptedTo(enc, old(dev[..]), dev[..], size)
    ensures r == Done && AllFull(io, size) ==> InOrder(tr.readLog, size)
    ensures Telling(enc, old(dev[..]), io.junk, size) && EncryptedTo(enc, old(dev[..]), dev[..], size) ==>
      !Divides0(size, totSize) && AllFull(io, size)
    ensures NoneShort(io, size) ==> Safe(enc, old(dev[..]), dev[..], tr, size)
    ensures EndsIn(old(dev[..]), dev[..], tr)
    ensures forall i | size <= i < dev.Length :: dev[i] == old(dev[i])
    ensures done == if r == Done then alreadyDone + size else alreadyDone
    ensures r == DivideByZero ==> dev[..] == old(dev[..])
    ensures Increasing(progress)
    ensures r == Done && size >= 8 ==> ShowsProgress(progress, size / 8, alreadyDone / 8, totSize / 8 / 100)
  {
    hide Copying, EncryptedTo, InOrder, Safe, EndsIn, Increasing, Telling, FullBelow, MovesBelow, NoneShort, ShowsProgress;
    done, progress, tr := alreadyDone, [], Trace([], [], []);
    ghost var plain := dev[..];
    Untouched(enc, plain, io, size);
    if !io.opens {
      r := IoError;
      return;
    }
    var numblocks, remainder := size / SECTORS_PER_BUF, size % SECTORS_PER_BUF;
    var onePct := totSize / SECTORS_PER_BUF / 100;
    assert numblocks > 0 && onePct == 0 <==> Divides0(size, totSize);
    if numblocks > 0 && onePct == 0 {
      r := DivideByZero;
      return;
    }
    var buf := new Bytes[SECTORS_PER_BUF](i requires 0 <= i < SECTORS_PER_BUF => io.junk[i]);
    assert buf[..] == io.junk;
    var ok, rp, wp := true, 0, 0;
    ghost var s := Copy(dev[..], buf[..], 0, 0, 0, true);
    if numblocks > 0 {
      ok, rp, wp, progress, tr := CopyBlocks(dev, buf, enc, io, numblocks, alreadyDone / SECTORS_PER_BUF, onePct, plain, size, tr);
      if ok {
        ghost var full :| Copied(enc, plain, io, size, tr,
          Copy(dev[..], buf[..], rp, wp, SECTORS_PER_BUF * numblocks, full), 2 * numblocks, SECTORS_PER_BUF * numblocks);
        s := Copy(dev[..], buf[..], rp, wp, SECTORS_PER_BUF * numblocks, full);
      }
    }
    if ok {
      ok, tr, s := CopyRest(dev, buf, enc, io, numblocks, remainder, rp, wp, plain, size, tr, s);
    }
    if !ok {
      r := IoError;
      return;
    }
    Stopped(enc, plain, io, size, tr, s, Transfers(size));
    done := done + size;
    r := Done;
  }

  lemma IncreasingEmpty()
    ensures Increasing([])
  {
  }

  /** Before the first transfer. */
  lemma Untouched(enc: Cipher, plain: seq<Bytes>, io: Io, size: nat)
    requires size <= |plain|
    ensures Copied(enc, plain, io, size, Trace([], [], []), Copy(plain, io.junk, 0, 0, 0, true), 0, 0)
    ensures Safe(enc, plain, plain, Trace([], [], []), size) && EndsIn(plain, plain, Trace([], [], [])) && Increasing([])
    ensures size == 0 ==> EncryptedTo(enc, plain, plain, size)
    ensures size > 0 && Telling(enc, plain, io.junk, size) ==> !EncryptedTo(enc, plain, plain, size)
  {
    CopyStart(enc, plain, io.junk, size);
    NothingDone(enc, plain, io.junk, size);
  }

  lemma NothingDone(enc: Cipher, plain: seq<Bytes>, junk: Buffer, size: nat)
    requires size <= |plain|
    ensures size == 0 ==> EncryptedTo(enc, plain, plain, size)
    ensures size > 0 && Telling(enc, plain, junk, size) ==> !EncryptedTo(enc, plain, plain, size)
  {
    if size > 0 && Telling(enc, plain, junk, size) {
      assert enc(0, plain[0]) != plain[0];
    }
  }

  /** What is left when a transfer has moved nothing. */
  ghost predicate Abandoned(enc: Cipher, plain: seq<Bytes>, io: Io, size: nat, tr: Trace, now: seq<Bytes>) {
    && !AllFull(io, size) && !MovesBelow(io, Transfers(size)) && |now| == |plain| && EndsIn(plain, now, tr)
    && (NoneShort(io, size) ==> Safe(enc, plain, now, tr, size))
    && (Telling(enc, plain, io.junk, size) ==> !EncryptedTo(enc, plain, now, size))
    && forall i | size <= i < |plain| :: now[i] == plain[i]
  }

  lemma GaveUp(enc: Cipher, plain: seq<Bytes>, io: Io, size: nat, tr: Trace, tr': Trace, s: Copy, n: nat)
    requires Copied(enc, plain, io, size, tr, s, n, s.k) && n + 1 < Transfers(size) && s.k < size
    requires io.moved(n) == 0 || io.moved(n + 1) == 0
    requires tr'.images == tr.images && tr'.cuts == tr.cuts
    ensures Abandoned(enc, plain, io, size, tr', s.now)
  {
    hide Copying, EncryptedTo, Telling;
    Stopped(enc, plain, io, size, tr, s, n);
    assert io.moved(n) < Want(size, n) || io.moved(n + 1) < Want(size, n + 1);
  }

  // ---- cryptfs_enable, in-place branch ---------------------------------------------------

  /** The footer that enabling writes first: new key wrapped under scrypt, encryption in progress. */
  function FreshFooter(c: Crypto, pw: string, key: Bytes, salt: Bytes, dev: Params, offset: nat, fsSize: nat): Footer {
    Rewrapped(c,
      Footer(true, 1, 2, false, true, fsSize, 0, [], salt,
             offset + FOOTER_TO_PERSIST, offset + FOOTER_TO_PERSIST + PERSIST_DATA_SIZE, PERSIST_DATA_SIZE,
             KDF_SCRYPT, dev),
      pw, key, dev)
  }

  /** Enabling starts the key slot's life in a state that opens under the password. */
  lemma FreshFooterOpens(c: Crypto, pw: string, key: Bytes, salt: Bytes, dev: Params, offset: nat, fsSize: nat)
    requires c.Lawful()
    ensures var f := FreshFooter(c, pw, key, salt, dev, offset, fsSize);
      && Inv(World(c, key), Slot(f.(inProgress := false), None), pw) && DecryptMasterKey(c, f, pw) == key && f.inProgress
      && Linked(Slot(f, Some(key))) && f.kdf == 2 && f.fsSize == fsSize && f.failed == 0 && f.salt == salt && f.params == dev
      && f.persistSize == 0x1000 && f.persistOffset0 == offset + 0x1000 && f.persistOffset1 == f.persistOffset0 + f.persistSize
  {
  }

  /** A disk image at a crash point: data sectors and the footer, if one has been written. */
  datatype Snap = Snap(data: seq<Bytes>, footer: Option<Footer>)

  predicate Flagged(f: Option<Footer>) { f.Some? && f.value.inProgress }

  /** Only a flagged footer may accompany data that is neither untouched nor completely encrypted. */
  ghost predicate Guarded(enc: Cipher, plain: seq<Bytes>, size: nat, h: Snap) {
    h.data == plain || EncryptedTo(enc, plain, h.data, size) || Flagged(h.footer)
  }

  function Snaps(images: seq<seq<Bytes>>, footer: Option<Footer>): (r: seq<Snap>)
    ensures |r| == |images| && forall j | 0 <= j < |r| :: r[j] == Snap(images[j], footer)
  {
    seq(|images|, j requires 0 <= j < |images| => Snap(images[j], footer))
  }

  function Total(vols: seq<array<Bytes>>): nat {
    if vols == [] then 0 else vols[0].Length + Total(vols[1..])
  }

  lemma {:induction false} TotalIsSum(a: seq<array<Bytes>>, b: seq<array<Bytes>>)
    ensures Total([]) == 0 && (|a| == 1 ==> Total(a) == a[0].Length) && Total(a + b) == Total(a) + Total(b)
  {
    if a == [] {
      assert a + b == b;
    } else {
      TotalIsSum(a[1..], b);
      assert (a + b)[1..] == a[1..] + b;
    }
  }

  /** The return code is overwritten by each volume: only the data partition and the last volume decide. */
  predicate Succeeds(outcomes: seq<Outcome>) {
    outcomes != [] && outcomes[0] == Done && outcomes[|outcomes| - 1] == Done
  }

  /** The sizes of the data partition and the volumes. */
  function Sizes(size: nat, vols: seq<array<Bytes>>): (r: seq<nat>)
    ensures |r| == |vols| + 1 && r[0] == size && forall i | 0 <= i < |vols| :: r[i + 1] == vols[i].Length
  {
    [size] + seq(|vols|, i requires 0 <= i < |vols| => vols[i].Length)
  }

  /** The outcomes of devices `v` and later; a division by zero ends the process. */
  ghost function Outcomes(io: nat -> Io, sizes: seq<nat>, total: nat, v: nat): (r: seq<Outcome>)
    requires v <= |sizes|
    ensures v < |sizes| ==> r != [] && r[0] == OutcomeOf(io(v), sizes[v], total)
    decreases |sizes| - v
  {
    if v == |sizes| then []
    else
      var o := OutcomeOf(io(v), sizes[v], total);
      [o] + if o == DivideByZero then [] else Outcomes(io, sizes, total, v + 1)
  }

  /** No device divides by zero, and no transfer moves nothing on the data partition and the last volume. */
  ghost predicate Survives(io: nat -> Io, sizes: seq<nat>, total: nat)
    requires sizes != []
  {
    && OutcomeOf(io(0), sizes[0], total) == Done && OutcomeOf(io(|sizes| - 1), sizes[|sizes| - 1], total) == Done
    && forall v: nat | v < |sizes| :: OutcomeOf(io(v), sizes[v], total) != DivideByZero
  }

  ghost predicate EveryFull(io: nat -> Io, sizes: seq<nat>) {
    forall v: nat | v < |sizes| :: AllFull(io(v), sizes[v])
  }

  /** From device `v` on, the last outcome is a success exactly when nothing divides by zero and the last device succeeds. */
  lemma {:induction false} LastOutcome(io: nat -> Io, sizes: seq<nat>, total: nat, v: nat)
    requires v < |sizes|
    ensures var o := Outcomes(io, sizes, total, v);
      o[|o| - 1] == Done <==>
      OutcomeOf(io(|sizes| - 1), sizes[|sizes| - 1], total) == Done &&
      forall u: nat | v <= u < |sizes| :: OutcomeOf(io(u), sizes[u], total) != DivideByZero
    decreases |sizes| - v
  {
    hide OutcomeOf;
    if v + 1 < |sizes| && OutcomeOf(io(v), sizes[v], total) != DivideByZero {
      LastOutcome(io, sizes, total, v + 1);
    }
  }

  /** What cryptfs_enable goes by: it stops after a failure on the data partition, and only there. */
  ghost function AllOutcomes(io: nat -> Io, sizes: seq<nat>, total: nat): seq<Outcome>
    requires sizes != []
  {
    if OutcomeOf(io(0), sizes[0], total) == Done then Outcomes(io, sizes, total, 0) else [OutcomeOf(io(0), sizes[0], total)]
  }

  lemma SucceedsIff(io: nat -> Io, sizes: seq<nat>, total: nat)
    requires sizes != []
    ensures Succeeds(AllOutcomes(io, sizes, total)) <==> Survives(io, sizes, total)
  {
    hide OutcomeOf;
    LastOutcome(io, sizes, total, 0);
  }

  /** If every device opens, every transfer moves something and nothing divides by zero, every outcome is a success. */
  lemma {:induction false} AllSucceed(io: nat -> Io, sizes: seq<nat>, total: nat, v: nat)
    requires v <= |sizes|
    requires forall u: nat | v <= u < |sizes| ::
      io(u).opens && MovesBelow(io(u), Transfers(sizes[u])) && !Divides0(sizes[u], total)
    ensures |Outcomes(io, sizes, total, v)| == |sizes| - v && forall o | o in Outcomes(io, sizes, total, v) :: o == Done
    decreases |sizes| - v
  {
    hide MovesBelow, Divides0;
    if v < |sizes| {
      assert OutcomeOf(io(v), sizes[v], total) == Done;
      AllSucceed(io, sizes, total, v + 1);
    }
  }

  /** A volume that fails between the data partition and the last volume goes unnoticed. */
  lemma EarlierVolumeFailureMasked(sizes: seq<nat>, total: nat, v: nat, junk: Buffer)
    requires 0 < v < |sizes| - 1 && sizes[v] > 0 && forall u: nat | u < |sizes| :: !Divides0(sizes[u], total)
    ensures var io := u => Io(true, k => if u == v then 0 else SECTORS_PER_BUF, junk);
      && Survives(io, sizes, total) && !EveryFull(io, sizes)
      && OutcomeOf(io(v), sizes[v], total) == IoError && Succeeds(AllOutcomes(io, sizes, total))
  {
    var io := u => Io(true, k => if u == v then 0 else SECTORS_PER_BUF, junk);
    assert io(v).moved(0) == 0 && Transfers(sizes[v]) > 0;
    assert forall u: nat | u < |sizes| && u != v :: MovesBelow(io(u), Transfers(sizes[u]));
    assert Want(sizes[v], 0) > 0;
    SucceedsIff(io, sizes, total);
  }

  function OneShort(n: nat, junk: Buffer): Io { Io(true, k => if k == n then 1 else SECTORS_PER_BUF, junk) }

  lemma OneShortOutcome(size: nat, total: nat, n: nat, junk: Buffer)
    requires n < 2 * (size / SECTORS_PER_BUF) && !Divides0(size, total)
    ensures OutcomeOf(OneShort(n, junk), size, total) == Done && !AllFull(OneShort(n, junk), size)
  {
    var io := OneShort(n, junk);
    assert io.moved(n) < Want(size, n) && n < Transfers(size);
  }

  /** One short transfer of a block goes unnoticed: success is reported for a device that is not encrypted. */
  method ShortTransferUnnoticed(dev: array<Bytes>, enc: Cipher, size: nat, total: nat, n: nat, junk: Buffer) returns (r: Outcome)
    requires size <= dev.Length && n < 2 * (size / SECTORS_PER_BUF) && !Divides0(size, total)
    requires Telling(enc, dev[..], junk, size)
    modifies dev
    ensures r == Done && !EncryptedTo(enc, old(dev[..]), dev[..], size)
  {
    hide EncryptedTo, Telling, Safe, InOrder, AllFull, NoneShort, Increasing;
    OneShortOutcome(size, total, n, junk);
    var done, progress;
    ghost var tr;
    r, done, progress, tr := EncryptInplace(dev, enc, size, 0, total, OneShort(n, junk));
  }

  /** The vold-managed volumes, in turn; only a crash of the process ends the loop early. */
  method EncryptVolumes(vols: seq<array<Bytes>>, enc: Cipher, alreadyDone: nat, total: nat, io: nat -> Io, size: nat)
    returns (outcomes: seq<Outcome>)
    requires forall i, j | 0 <= i < j < |vols| :: vols[i] != vols[j]
    modifies vols
    ensures outcomes == Outcomes(io, Sizes(size, vols), total, 1)
    ensures DivideByZero !in outcomes ==> forall i | 0 <= i < |vols| ::
      Complete(enc, old(vols[i][..]), vols[i][..], vols[i].Length, total, io(i + 1))
  {
    hide OutcomeOf, Complete, Outcomes, Sizes;
    outcomes := [];
    ghost var sizes, plains := Sizes(size, vols), Images(vols);
    var done := alreadyDone;
    for i := 0 to |vols|
      invariant |outcomes| == i && DivideByZero !in outcomes
      invariant Outcomes(io, sizes, total, 1) == outcomes + Outcomes(io, sizes, total, i + 1)
      invariant forall k | i <= k < |vols| :: vols[k][..] == plains[k]
      invariant forall k | 0 <= k < i :: Complete(enc, plains[k], vols[k][..], vols[k].Length, total, io(k + 1))
    {
      assert forall k | 0 <= k < |vols| && k != i :: vols[k] != vols[i];
      OutcomesStep(io, sizes, total, i + 1);
      var r;
      r, done := EncryptVolume(vols[i], enc, done, total, io(i + 1));
      outcomes := outcomes + [r];
      if r == DivideByZero {
        return;
      }
    }
    OutcomesStep(io, sizes, total, |sizes|);
  }

  lemma OutcomesStep(io: nat -> Io, sizes: seq<nat>, total: nat, v: nat)
    requires v <= |sizes|
    ensures v == |sizes| ==> Outcomes(io, sizes, total, v) == []
    ensures v < |sizes| ==>
      var o := OutcomeOf(io(v), sizes[v], total);
      Outcomes(io, sizes, total, v) == [o] + if o == DivideByZero then [] else Outcomes(io, sizes, total, v + 1)
  {
  }

  /** A device is encrypted exactly when every transfer on it is full, as far as the data can tell. */
  ghost predicate Complete(enc: Cipher, plain: seq<Bytes>, now: seq<Bytes>, size: nat, total: nat, io: Io) {
    && (!Divides0(size, total) && AllFull(io, size) ==> EncryptedTo(enc, plain, now, size))
    && (Telling(enc, plain, io.junk, size) && EncryptedTo(enc, plain, now, size) ==> !Divides0(size, total) && AllFull(io, size))
  }

  method EncryptVolume(vol: array<Bytes>, enc: Cipher, alreadyDone: nat, total: nat, io: Io) returns (r: Outcome, done: nat)
    modifies vol
    ensures r == OutcomeOf(io, vol.Length, total)
    ensures Complete(enc, old(vol[..]), vol[..], vol.Length, total, io)
  {
    hide EncryptedTo, Safe, InOrder, Increasing, Telling, AllFull;
    var progress;
    ghost var tr;
    r, done, progress, tr := EncryptInplace(vol, enc, vol.Length, alreadyDone, total, io);
  }

  ghost predicate AllGuarded(enc: Cipher, plain: seq<Bytes>, size: nat, history: seq<Snap>) {
    forall h | h in history :: Guarded(enc, plain, size, h)
  }

  /** With the key in the footer, the file system ends where the footer starts: 16 KB before the end of the partition. */
  function FsSize(nrSec: nat, keyInFooter: bool): (size: nat)
    requires keyInFooter ==> nrSec >= FOOTER_SECTORS
    ensures size * 512 + (if keyInFooter then 0x4000 else 0) == nrSec * 512
  {
    if keyInFooter then nrSec - FOOTER_SECTORS else nrSec
  }

  /** Nothing in the last 16 KB, where the footer lies, has changed. */
  ghost predicate FooterKept(plain: seq<Bytes>, now: seq<Bytes>) {
    |now| == |plain| && forall i | 0 <= i < |plain| && i * 512 >= |plain| * 512 - 0x4000 :: now[i] == plain[i]
  }

  /** Every sector is encrypted, up to the last 16 KB if the footer lies there. */
  ghost predicate DataEncrypted(enc: Cipher, plain: seq<Bytes>, now: seq<Bytes>, keyInFooter: bool) {
    |now| == |plain| &&
    forall i | 0 <= i < |plain| && (keyInFooter ==> i * 512 < |plain| * 512 - 0x4000) :: now[i] == enc(i, plain[i])
  }

  lemma EndIsFooter(plain: seq<Bytes>, now: seq<Bytes>)
    requires |plain| >= FOOTER_SECTORS && |now| == |plain|
    requires forall i | FsSize(|plain|, true) <= i < |plain| :: now[i] == plain[i]
    ensures FooterKept(plain, now)
  {
  }

  lemma DataUpToFooter(enc: Cipher, plain: seq<Bytes>, now: seq<Bytes>, keyInFooter: bool, plains: seq<seq<Bytes>>, nows: seq<seq<Bytes>>)
    requires |plains| == |nows| && (keyInFooter ==> |plain| >= FOOTER_SECTORS)
    requires AllEncrypted(enc, plain, now, FsSize(|plain|, keyInFooter), plains, nows)
    ensures DataEncrypted(enc, plain, now, keyInFooter)
  {
  }

  /** The data partition and every volume are completely encrypted. */
  ghost predicate AllEncrypted(enc: Cipher, plain: seq<Bytes>, now: seq<Bytes>, size: nat, plains: seq<seq<Bytes>>, nows: seq<seq<Bytes>>)
    requires |plains| == |nows|
  {
    && EncryptedTo(enc, plain, now, size)
    && forall i | 0 <= i < |plains| :: EncryptedTo(enc, plains[i], nows[i], |plains[i]|)
  }

  ghost predicate AllTelling(enc: Cipher, plain: seq<Bytes>, size: nat, plains: seq<seq<Bytes>>, io: nat -> Io) {
    && Telling(enc, plain, io(0).junk, size)
    && forall i | 0 <= i < |plains| :: Telling(enc, plains[i], io(i + 1).junk, |plains[i]|)
  }

  ghost function Images(vols: seq<array<Bytes>>): (r: seq<seq<Bytes>>)
    reads vols
    ensures |r| == |vols| && forall i | 0 <= i < |vols| :: r[i] == vols[i][..]
  {
    seq(|vols|, i requires 0 <= i < |vols| reads vols => vols[i][..])
  }

  /**
   * `dm(key)` is the dm-crypt mapping under a key and `io(v)` the behaviour of device v (0 is the data
   * partition). `flagWritten` and `clearWritten` are whether the two footer writes reach the disk; the code
   * ignores both results. `history` holds every image of the data partition and its footer.
   */
  method EnableInplace(c: Crypto, dm: Bytes -> Cipher, dev: array<Bytes>, vols: seq<array<Bytes>>,
                       keyInFooter: bool, pw: string, key: Bytes, salt: Bytes, params: Params, offset: nat,
                       footer0: Option<Footer>, io: nat -> Io, flagWritten: bool, clearWritten: bool)
    returns (outcomes: seq<Outcome>, footer: Option<Footer>, ghost history: seq<Snap>)
    requires c.Lawful()
    requires keyInFooter ==> dev.Length >= FOOTER_SECTORS
    requires dev !in vols && forall i, j | 0 <= i < j < |vols| :: vols[i] != vols[j]
    modifies dev, vols
    ensures var size := FsSize(dev.Length, keyInFooter); outcomes == AllOutcomes(io, Sizes(size, vols), size + Total(vols))
    ensures history != [] && history[|history| - 1] == Snap(dev[..], footer)
    ensures keyInFooter ==> FooterKept(old(dev[..]), dev[..])
    ensures var size := FsSize(dev.Length, keyInFooter); var sizes := Sizes(size, vols);
      Survives(io, sizes, size + Total(vols)) && EveryFull(io, sizes) ==>
      DataEncrypted(dm(key), old(dev[..]), dev[..], keyInFooter)
    ensures var size := FsSize(dev.Length, keyInFooter); var f := FreshFooter(c, pw, key, salt, params, offset, size);
      footer == if Succeeds(outcomes) && clearWritten then Some(f.(inProgress := false))
                else if flagWritten then Some(f) else footer0
    ensures var size := FsSize(dev.Length, keyInFooter); NoneShort(io(0), size) ==>
      && (flagWritten ==> AllGuarded(dm(key), old(dev[..]), size, history))
      && (!flagWritten ==> forall h | h in history :: h.footer == footer0 || EncryptedTo(dm(key), old(dev[..]), h.data, size))
    ensures var size := FsSize(dev.Length, keyInFooter); var sizes := Sizes(size, vols);
      Survives(io, sizes, size + Total(vols)) && EveryFull(io, sizes) ==>
      AllEncrypted(dm(key), old(dev[..]), dev[..], size, old(Images(vols)), Images(vols))
    ensures var size := FsSize(dev.Length, keyInFooter); var sizes := Sizes(size, vols);
      flagWritten && AllTelling(dm(key), old(dev[..]), size, old(Images(vols)), io) ==>
      (!Flagged(footer) && !AllEncrypted(dm(key), old(dev[..]), dev[..], size, old(Images(vols)), Images(vols)) <==>
       clearWritten && Survives(io, sizes, size + Total(vols)) && !EveryFull(io, sizes))
  {
    hide EncryptedTo, FreshFooter, Guarded, Outcomes, OutcomeOf, Survives, Complete, NoneShort;
    hide AllEncrypted, AllTelling, EveryFull, Sizes, Images, Inv, DecryptMasterKey, FsSize, FooterKept, DataEncrypted;
    var size := FsSize(dev.Length, keyInFooter);
    var f := FreshFooter(c, pw, key, salt, params, offset, size);
    FreshFooterOpens(c, pw, key, salt, params, offset, size);
    var enc := dm(DecryptMasterKey(c, f, pw));
    ghost var plain, plains := dev[..], Images(vols);
    footer := if flagWritten then Some(f) else footer0;
    history := [Snap(dev[..], footer0), Snap(dev[..], footer)];
    UntouchedGuarded(enc, plain, size, footer0);
    UntouchedGuarded(enc, plain, size, footer);

    var total := size + Total(vols);
    ghost var sizes := Sizes(size, vols);
    SucceedsIff(io, sizes, total);
    OutcomesStep(io, sizes, total, 0);
    var r, done;
    r, done, history := EncryptUserdata(dev, enc, size, total, io(0), footer, history);
    outcomes := [r];
    if keyInFooter { EndIsFooter(plain, dev[..]); }
    if r == Done {
      var more := EncryptVolumes(vols, enc, done, total, io, size);
      outcomes := outcomes + more;
      if Succeeds(outcomes) {
        NoCrash(io, sizes, total);
        Verdict(enc, plain, dev[..], size, plains, Images(vols), io, sizes, total);
        if EveryFull(io, sizes) { DataUpToFooter(enc, plain, dev[..], keyInFooter, plains, Images(vols)); }
        if clearWritten {
          footer := Some(f.(inProgress := false));
        }
        if NoneShort(io(0), size) {
          EncryptedGuarded(enc, plain, size, Snap(dev[..], footer));
        }
        history := history + [Snap(dev[..], footer)];
      }
    }
  }

  lemma NoCrash(io: nat -> Io, sizes: seq<nat>, total: nat)
    requires sizes != [] && Survives(io, sizes, total)
    ensures DivideByZero !in Outcomes(io, sizes, total, 0) && Outcomes(io, sizes, total, 0) == AllOutcomes(io, sizes, total)
  {
    hide OutcomeOf;
    NoneDivides(io, sizes, total, 0);
  }

  lemma {:induction false} NoneDivides(io: nat -> Io, sizes: seq<nat>, total: nat, v: nat)
    requires v <= |sizes| && forall u: nat | u < |sizes| :: OutcomeOf(io(u), sizes[u], total) != DivideByZero
    ensures DivideByZero !in Outcomes(io, sizes, total, v)
    decreases |sizes| - v
  {
    hide OutcomeOf, Outcomes;
    OutcomesStep(io, sizes, total, v);
    if v < |sizes| {
      NoneDivides(io, sizes, total, v + 1);
    }
  }

  lemma FullDivides(io: Io, size: nat, total: nat)
    requires AllFull(io, size) && OutcomeOf(io, size, total) != DivideByZero
    ensures !Divides0(size, total)
  {
  }

  /** Once no device has crashed, everything is encrypted exactly when every transfer on every device was full. */
  lemma Verdict(enc: Cipher, plain: seq<Bytes>, now: seq<Bytes>, size: nat, plains: seq<seq<Bytes>>, nows: seq<seq<Bytes>>,
                io: nat -> Io, sizes: seq<nat>, total: nat)
    requires |plains| == |nows| == |sizes| - 1 && sizes[0] == size && forall i | 0 <= i < |plains| :: sizes[i + 1] == |plains[i]|
    requires Survives(io, sizes, total) && Complete(enc, plain, now, size, total, io(0))
    requires forall i | 0 <= i < |plains| :: Complete(enc, plains[i], nows[i], |plains[i]|, total, io(i + 1))
    ensures EveryFull(io, sizes) ==> AllEncrypted(enc, plain, now, size, plains, nows)
    ensures AllTelling(enc, plain, size, plains, io) && AllEncrypted(enc, plain, now, size, plains, nows) ==> EveryFull(io, sizes)
  {
    hide EncryptedTo, Telling, AllFull, MovesBelow;
    assert forall v: nat | v < |sizes| :: OutcomeOf(io(v), sizes[v], total) != DivideByZero;
    assert OutcomeOf(io(0), sizes[0], total) == Done;
    if AllTelling(enc, plain, size, plains, io) && AllEncrypted(enc, plain, now, size, plains, nows) {
      forall v: nat | v < |sizes| ensures AllFull(io(v), sizes[v]) {
        if v > 0 {
          assert Complete(enc, plains[v - 1], nows[v - 1], |plains[v - 1]|, total, io(v));
        }
      }
    }
    if EveryFull(io, sizes) {
      forall i | 0 <= i < |plains| ensures EncryptedTo(enc, plains[i], nows[i], |plains[i]|) {
        assert AllFull(io(i + 1), sizes[i + 1]);
        FullDivides(io(i + 1), sizes[i + 1], total);
      }
    }
  }

  lemma UntouchedGuarded(enc: Cipher, plain: seq<Bytes>, size: nat, footer: Option<Footer>)
    ensures Guarded(enc, plain, size, Snap(plain, footer))
  {
  }

  lemma EncryptedGuarded(enc: Cipher, plain: seq<Bytes>, size: nat, h: Snap)
    requires EncryptedTo(enc, plain, h.data, size)
    ensures Guarded(enc, plain, size, h)
  {
  }

  /** The data partition, with the history of images under the footer that is on disk meanwhile. */
  method EncryptUserdata(dev: array<Bytes>, enc: Cipher, size: nat, total: nat, io: Io,
                         footer: Option<Footer>, ghost before: seq<Snap>)
    returns (r: Outcome, done: nat, ghost history: seq<Snap>)
    requires size <= dev.Length
    requires before != [] && before[|before| - 1] == Snap(dev[..], footer)
    modifies dev
    ensures r == OutcomeOf(io, size, total) && Complete(enc, old(dev[..]), dev[..], size, total, io)
    ensures history != [] && history[|history| - 1] == Snap(dev[..], footer)
    ensures Flagged(footer) && AllGuarded(enc, old(dev[..]), size, before) ==> AllGuarded(enc, old(dev[..]), size, history)
    ensures forall h | h in history :: h in before || h.footer == footer
    ensures forall i | size <= i < dev.Length :: dev[i] == old(dev[i])
    ensures NoneShort(io, size) && r == Done ==> EncryptedTo(enc, old(dev[..]), dev[..], size)
  {
    hide EncryptedTo, Safe, InOrder, Increasing, Telling;
    var progress;
    ghost var tr;
    ghost var plain := dev[..];
    r, done, progress, tr := EncryptInplace(dev, enc, size, 0, total, io);
    history := before + Snaps(tr.images, footer);
  }
}
