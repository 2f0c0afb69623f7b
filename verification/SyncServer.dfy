/**
 * The device side of adb's file sync: a loop that reads requests from one byte stream and answers on
 * another.
 */
module SyncServer {
  import opened Util
  import opened SyncWire

  type Path = seq<Byte>

  /** A file: its bytes, or those of the target when it is a symbolic link. */
  datatype File = File(data: seq<Byte>, mtime: nat, perm: nat, link: bool)

  type Files = map<Path, File>

  /** One read of a file: some bytes, an interruption to be retried, or an error. */
  datatype Read = Got(bytes: seq<Byte>) | Again | Broke

  /**
   * What the system calls of one request do: whether files can be removed and opened, which write fails and after how
   * many bytes of it, the error text, a directory listing, and the reads of a file up to its end; then whether the
   * service was built with symbolic links, whether one can be made, when, and what the buffer holds from before.
   */
  datatype Env = Env(
    unlink: bool,
    open: bool,
    failAt: Option<nat>,
    partial: nat,
    reason: seq<Byte>,
    listing: seq<Byte>,
    pieces: seq<Read>,
    symlinks: bool,
    made: bool,
    now: nat,
    junk: seq<Byte>)

  predicate Sane(e: Env) { |e.reason| < WORD && forall r | r in e.pieces && r.Got? :: 1 <= |r.bytes| <= SYNC_DATA_MAX }

  function Ascii(s: string): (b: seq<Byte>)
    ensures |b| == |s|
  {
    seq(|s|, i requires 0 <= i < |s| => s[i] as int % 256)
  }

  function Okay(): seq<Byte> { Header(OKAY, 0) }

  function Fail(reason: seq<Byte>): seq<Byte>
    requires |reason| < WORD
  {
    Message(FAIL, reason)
  }

  function Unlink(files: Files, path: Path, e: Env): Files { if e.unlink then files - {path} else files }

  // ---- Receiving a file ------------------------------------------------------------------

  /** Writing from the start of a file without truncating it. */
  function Over(was: seq<Byte>, now: seq<Byte>): seq<Byte> { if |now| >= |was| then now else now + was[|now|..] }

  /** A file being received: where, whether still open, what it held, what was written, how many writes, what was answered. */
  datatype Put = Put(files: Files, path: Path, open: bool, was: seq<Byte>, written: seq<Byte>, writes: nat, reply: seq<Byte>)

  /** The result of handling one request: files, unread input, answer, and whether the session goes on. */
  datatype Out = Out(files: Files, rest: seq<Byte>, reply: seq<Byte>, ok: bool)

  /** A link that could not be removed counts as a file that cannot be opened. */
  predicate Opens(files: Files, path: Path, e: Env) { e.open && !(path in files && files[path].link) }

  function Opened(files: Files, path: Path, perm: nat, e: Env): (p: Put)
    requires Sane(e)
    ensures Proper(p)
  {
    if Opens(files, path, e) then
      var f := if path in files then files[path] else File([], 0, perm, false);
      Put(files[path := f], path, true, f.data, [], 0, [])
    else Put(files, path, false, [], [], 0, Fail(e.reason))
  }

  predicate Proper(p: Put) { p.open ==> p.path in p.files }

  function Write(p: Put, c: seq<Byte>, e: Env): (r: Put)
    requires Sane(e) && Proper(p)
    ensures Proper(r)
  {
    if !p.open then p
    else if e.failAt == Some(p.writes) then
      var left := p.written + c[..if e.partial < |c| then e.partial else |c|];
      var files := p.files[p.path := p.files[p.path].(data := Over(p.was, left))];
      p.(files := Unlink(files, p.path, e), open := false, written := left, reply := p.reply + Fail(e.reason))
    else
      var now := p.written + c;
      p.(files := p.files[p.path := p.files[p.path].(data := Over(p.was, now))], written := now, writes := p.writes + 1)
  }

  function Finish(p: Put, time: nat, rest: seq<Byte>): Out
    requires Proper(p)
  {
    if p.open then Out(p.files[p.path := p.files[p.path].(mtime := time)], rest, p.reply + Okay(), true)
    else Out(p.files, rest, p.reply, true)
  }

  function Abandon(p: Put, message: seq<Byte>, rest: seq<Byte>, e: Env): Out {
    Out(Unlink(p.files, p.path, e), rest, p.reply + message, false)
  }

  /** What comes next on the stream while a file is received. */
  datatype Part =
    | Cut(rest: seq<Byte>)
    | Bad(message: seq<Byte>, rest: seq<Byte>)
    | End(time: nat, rest: seq<Byte>)
    | Chunk(bytes: seq<Byte>, rest: seq<Byte>)

  function NextPart(s: seq<Byte>): (r: Part)
    ensures |r.rest| <= |s| && (r.Chunk? ==> |r.rest| < |s|)
  {
    if |s| < 8 then Cut(s)
    else if HeadId(s) == DONE then End(HeadSize(s), s[8..])
    else if HeadId(s) != DATA then Bad(Fail(Ascii("invalid data message")), s[8..])
    else if HeadSize(s) > SYNC_DATA_MAX then Bad(Fail(Ascii("oversize data message")), s[8..])
    else if |s| - 8 < HeadSize(s) then Cut(s[8..])
    else Chunk(s[8..8 + HeadSize(s)], s[8 + HeadSize(s)..])
  }

  function Receive(p: Put, s: seq<Byte>, e: Env): (r: Out)
    requires Sane(e) && Proper(p)
    ensures |r.rest| <= |s|
    decreases |s|
  {
    match NextPart(s)
    case Cut(rest) => Abandon(p, [], rest, e)
    case Bad(message, rest) => Abandon(p, message, rest, e)
    case End(time, rest) => Finish(p, time, rest)
    case Chunk(bytes, rest) => Receive(Write(p, bytes, e), rest, e)
  }

  // ---- A well-formed body ----------------------------------------------------------------

  function WriteAll(p: Put, chunks: seq<seq<Byte>>, e: Env): (r: Put)
    requires Sane(e) && Proper(p)
    ensures Proper(r)
    decreases chunks
  {
    if chunks == [] then p else WriteAll(Write(p, chunks[0], e), chunks[1..], e)
  }

  /** A well-formed body is consumed to its last byte whatever fails on the way. */
  lemma {:induction false} ReceiveBody(p: Put, chunks: seq<seq<Byte>>, time: nat, rest: seq<Byte>, e: Env)
    requires Sane(e) && Proper(p) && Small(chunks) && time < WORD
    ensures Receive(p, Body(chunks, time) + rest, e) == Finish(WriteAll(p, chunks, e), time, rest)
    decreases chunks
  {
    hide Message, Header, HeadId, HeadSize, Write, Finish;
    var s := Body(chunks, time) + rest;
    if chunks == [] {
      assert s == Header(DONE, time) + rest;
      HeaderReads(DONE, time, rest);
    } else {
      var tail := Body(chunks[1..], time) + rest;
      BodyCons(chunks, time, rest);
      assert chunks[0] in chunks;
      MessageReads(DATA, chunks[0], tail);
      assert s == Message(DATA, chunks[0]) + tail;
      ReceiveBody(Write(p, chunks[0], e), chunks[1..], time, rest, e);
    }
  }

  /** A stream that goes wrong: it ends inside a message, or the next message is neither data of at most 64K nor DONE. */
  ghost predicate Broken(s: seq<Byte>) {
    || |s| < 8
    || (HeadId(s) != DATA && HeadId(s) != DONE)
    || (HeadId(s) == DATA && (HeadSize(s) > 65536 || |s| - 8 < HeadSize(s)))
  }

  /** What such a stream is answered with: a stream that ends gets no answer. */
  function Complaint(s: seq<Byte>): seq<Byte> {
    if |s| < 8 then []
    else if HeadId(s) != DATA then Fail(Ascii("invalid data message"))
    else if HeadSize(s) > 65536 then Fail(Ascii("oversize data message"))
    else []
  }

  /** Whatever came before, the session ends there, and the file is removed if it can be. */
  lemma {:induction false} ReceiveBroken(p: Put, chunks: seq<seq<Byte>>, s: seq<Byte>, e: Env)
    requires Sane(e) && Proper(p) && Small(chunks) && Broken(s)
    ensures var r, q := Receive(p, DataMessages(chunks) + s, e), WriteAll(p, chunks, e);
      && !r.ok && r.reply == q.reply + Complaint(s)
      && r.files == (if e.unlink then q.files - {p.path} else q.files)
      && r.rest == if |s| < 8 then s else s[8..]
    decreases chunks
  {
    hide Message, HeadId, HeadSize, Ascii, Broken, Complaint, Receive;
    if chunks == [] {
      assert DataMessages(chunks) + s == s;
      BrokenAtOnce(p, s, e);
    } else {
      hide Write;
      var tail := DataMessages(chunks[1..]) + s;
      assert chunks[0] in chunks && DataMessages(chunks) + s == Message(DATA, chunks[0]) + tail;
      MessageReads(DATA, chunks[0], tail);
      ReceiveStep(p, Message(DATA, chunks[0]) + tail, e);
      WriteKeepsPath(p, chunks[0], e);
      ReceiveBroken(Write(p, chunks[0], e), chunks[1..], s, e);
    }
  }

  lemma BrokenAtOnce(p: Put, s: seq<Byte>, e: Env)
    requires Sane(e) && Proper(p) && Broken(s)
    ensures var r := Receive(p, s, e);
      && !r.ok && r.reply == p.reply + Complaint(s)
      && r.files == (if e.unlink then p.files - {p.path} else p.files)
      && r.rest == if |s| < 8 then s else s[8..]
  {
    hide Message, HeadId, HeadSize, Ascii;
  }

  lemma WriteKeepsPath(p: Put, c: seq<Byte>, e: Env)
    requires Sane(e) && Proper(p)
    ensures Write(p, c, e).path == p.path
  {
  }

  predicate WritesAll(p: Put, chunks: seq<seq<Byte>>, e: Env) {
    e.failAt == None || e.failAt.value < p.writes || e.failAt.value >= p.writes + |chunks|
  }

  lemma {:induction false} WriteAllClosed(p: Put, chunks: seq<seq<Byte>>, e: Env)
    requires Sane(e) && Proper(p) && !p.open
    ensures WriteAll(p, chunks, e) == p
    decreases chunks
  {
    if chunks != [] { WriteAllClosed(p, chunks[1..], e); }
  }

  lemma {:induction false} WriteAllSucceeds(p: Put, chunks: seq<seq<Byte>>, e: Env)
    requires Sane(e) && Proper(p) && p.open && WritesAll(p, chunks, e)
    requires p.files[p.path].data == Over(p.was, p.written)
    ensures var r := WriteAll(p, chunks, e); var all := p.written + Flatten(chunks);
      r.open && r.reply == p.reply && r.path == p.path &&
      r.files == p.files[p.path := p.files[p.path].(data := Over(p.was, all))]
    decreases chunks
  {
    hide Over;
    if chunks == [] {
      assert p.written + Flatten(chunks) == p.written;
    } else {
      var q := Write(p, chunks[0], e);
      assert q.files[p.path].data == Over(p.was, q.written);
      WriteAllSucceeds(q, chunks[1..], e);
      assert q.written + Flatten(chunks[1..]) == p.written + Flatten(chunks);
    }
  }

  lemma {:induction false} WriteAllFails(p: Put, chunks: seq<seq<Byte>>, e: Env)
    requires Sane(e) && Proper(p) && p.open && !WritesAll(p, chunks, e)
    ensures var r := WriteAll(p, chunks, e);
      !r.open && r.reply == p.reply + Fail(e.reason) && r.path == p.path && (e.unlink ==> r.files == p.files - {p.path})
    decreases chunks
  {
    hide Over;
    if e.failAt == Some(p.writes) {
      WriteAllClosed(Write(p, chunks[0], e), chunks[1..], e);
    } else {
      WriteAllFails(Write(p, chunks[0], e), chunks[1..], e);
    }
  }

  /** What reaches the file when the write number `j` fails: the chunks before it, and part of that one. */
  function UpToFailure(chunks: seq<seq<Byte>>, j: nat, partial: nat): seq<Byte>
    requires j < |chunks|
  {
    if j == 0 then chunks[0][..if partial < |chunks[0]| then partial else |chunks[0]|]
    else chunks[0] + UpToFailure(chunks[1..], j - 1, partial)
  }

  lemma {:induction false} WriteAllLeaves(p: Put, chunks: seq<seq<Byte>>, e: Env)
    requires Sane(e) && Proper(p) && p.open && !WritesAll(p, chunks, e) && !e.unlink
    ensures var r := WriteAll(p, chunks, e); var left := p.written + UpToFailure(chunks, e.failAt.value - p.writes, e.partial);
      r.files == p.files[p.path := p.files[p.path].(data := Over(p.was, left))]
    decreases chunks
  {
    hide Over;
    var q, j := Write(p, chunks[0], e), e.failAt.value - p.writes;
    if j == 0 {
      WriteAllClosed(q, chunks[1..], e);
    } else {
      WriteAllLeaves(q, chunks[1..], e);
      assert q.written + UpToFailure(chunks[1..], j - 1, e.partial) == p.written + UpToFailure(chunks, j, e.partial);
    }
  }

  /** What a file held before that could not be removed; nothing otherwise. */
  function Kept(files: Files, path: Path): seq<Byte> { if path in files then files[path].data else [] }

  function SentFile(files: Files, path: Path, perm: nat, content: seq<Byte>, time: nat): File {
    File(Over(Kept(files, path), content), time, if path in files then files[path].perm else perm, false)
  }

  predicate AllStored(files: Files, path: Path, chunks: seq<seq<Byte>>, e: Env) {
    Opens(files, path, e) && (e.failAt == None || e.failAt.value >= |chunks|)
  }

  /**
   * Exactly one status for every well-formed send, the next request next in line: OKAY with the file stored and stamped
   * when the open and every write succeed, one FAIL otherwise.
   */
  lemma SendOneReply(files: Files, path: Path, perm: nat, chunks: seq<seq<Byte>>, time: nat, rest: seq<Byte>, e: Env)
    requires Sane(e) && Small(chunks) && time < WORD
    ensures var r := Receive(Opened(files, path, perm, e), Body(chunks, time) + rest, e);
      && r.ok && r.rest == rest
      && r.reply == (if AllStored(files, path, chunks, e) then Okay() else Fail(e.reason))
      && (AllStored(files, path, chunks, e) ==> r.files == files[path := SentFile(files, path, perm, Flatten(chunks), time)])
      && (!Opens(files, path, e) ==> r.files == files)
      && (Opens(files, path, e) && !AllStored(files, path, chunks, e) && e.unlink ==> r.files == files - {path})
      && (Opens(files, path, e) && !AllStored(files, path, chunks, e) && !e.unlink ==>
           path in r.files && r.files[path].data == Over(Kept(files, path), UpToFailure(chunks, e.failAt.value, e.partial)))
  {
    hide Message, Header, Body, Flatten, Over, Receive, Write, UpToFailure;
    var p := Opened(files, path, perm, e);
    ReceiveBody(p, chunks, time, rest, e);
    if !Opens(files, path, e) {
      WriteAllClosed(p, chunks, e);
    } else if AllStored(files, path, chunks, e) {
      OverNothing(p.was);
      WriteAllSucceeds(p, chunks, e);
      assert [] + Flatten(chunks) == Flatten(chunks);
      assert [] + Okay() == Okay();
    } else {
      WriteAllFails(p, chunks, e);
      assert [] + Fail(e.reason) == Fail(e.reason);
      assert files[path := p.files[path]] - {path} == files - {path};
      if !e.unlink {
        WriteAllLeaves(p, chunks, e);
        assert [] + UpToFailure(chunks, e.failAt.value, e.partial) == UpToFailure(chunks, e.failAt.value, e.partial);
      }
    }
  }

  lemma OverNothing(was: seq<Byte>)
    ensures Over(was, []) == was
  {
  }

  /** The stored file is the one sent exactly when no longer file was left in its place. */
  lemma StoredIsSentIff(files: Files, path: Path, perm: nat, content: seq<Byte>, time: nat)
    ensures SentFile(files, path, perm, content, time).data == content <==> |Kept(files, path)| <= |content|
  {
  }

  // ---- Requests --------------------------------------------------------------------------

  /** Bitwise or of two octal digits. */
  function OrDigit(a: nat, b: nat): nat {
    (if a / 4 % 2 + b / 4 % 2 > 0 then 4 else 0) + (if a / 2 % 2 + b / 2 % 2 > 0 then 2 else 0) + (if a % 2 + b % 2 > 0 then 1 else 0)
  }

  /** The user's permissions are given to the group as well, and the group's to others. */
  function Spread(mode: nat): nat {
    var u, g := mode / 64 % 8, OrDigit(mode / 8 % 8, mode / 64 % 8);
    u * 64 + g * 8 + OrDigit(mode % 8, g)
  }

  predicate Bit(n: nat, weight: nat)
    requires weight > 0
  {
    n / weight % 2 == 1
  }

  /** Bit by bit: the user's stay, the group has its own and the user's, others have theirs, the group's and the user's. */
  lemma SpreadBits(mode: nat, k: nat)
    requires k in {1, 2, 4}
    ensures Spread(mode) < 512
    ensures Bit(Spread(mode), 64 * k) <==> Bit(mode, 64 * k)
    ensures Bit(Spread(mode), 8 * k) <==> Bit(mode, 8 * k) || Bit(mode, 64 * k)
    ensures Bit(Spread(mode), k) <==> Bit(mode, k) || Bit(mode, 8 * k) || Bit(mode, 64 * k)
  {
    var u, g, o := mode / 64 % 8, mode / 8 % 8, mode % 8;
    OrBits(g, u, k);
    OrBits(o, OrDigit(g, u), k);
    DigitBits(mode, k);
    DigitBits(Spread(mode), k);
    hide OrDigit, Bit;
    var g' := OrDigit(g, u);
    Octal(u, g', OrDigit(o, g'));
  }

  lemma OrBits(a: nat, b: nat, k: nat)
    requires a < 8 && b < 8 && k in {1, 2, 4}
    ensures OrDigit(a, b) < 8
    ensures Bit(OrDigit(a, b), k) <==> Bit(a, k) || Bit(b, k)
  {
    var x, y, z := a / 4 % 2 + b / 4 % 2 > 0, a / 2 % 2 + b / 2 % 2 > 0, a % 2 + b % 2 > 0;
    ThreeBits(x, y, z);
    assert OrDigit(a, b) == (if x then 4 else 0) + (if y then 2 else 0) + (if z then 1 else 0);
    assert a / 1 == a && b / 1 == b;
    hide OrDigit;
  }

  lemma ThreeBits(x: bool, y: bool, z: bool)
    ensures var n := (if x then 4 else 0) + (if y then 2 else 0) + (if z then 1 else 0);
      n < 8 && (Bit(n, 4) <==> x) && (Bit(n, 2) <==> y) && (Bit(n, 1) <==> z)
  {
  }

  lemma Octal(u: nat, g: nat, o: nat)
    requires u < 8 && g < 8 && o < 8
    ensures var n := u * 64 + g * 8 + o; n / 64 % 8 == u && n / 8 % 8 == g && n % 8 == o
  {
    assert (u * 64 + g * 8 + o) / 8 == u * 8 + g;
  }

  /** The bits of a number are those of its octal digits. */
  lemma DigitBits(n: nat, k: nat)
    requires k in {1, 2, 4}
    ensures Bit(n, 64 * k) <==> Bit(n / 64 % 8, k)
    ensures Bit(n, 8 * k) <==> Bit(n / 8 % 8, k)
    ensures Bit(n, k) <==> Bit(n % 8, k)
  {
    LowBits(n, k);
    LowBits(n / 8, k);
    LowBits(n / 64, k);
    Divided(n, k);
  }

  lemma Divided(n: nat, k: nat)
    requires k in {1, 2, 4}
    ensures n / 8 / k == n / (8 * k) && n / 64 / k == n / (64 * k)
  {
    if k == 2 {
      assert n / 8 / 2 == n / 16 && n / 64 / 2 == n / 128;
    } else if k == 4 {
      assert n / 8 / 4 == n / 32 && n / 64 / 4 == n / 256;
    }
  }

  lemma LowBits(n: nat, k: nat)
    requires k in {1, 2, 4}
    ensures Bit(n, k) <==> Bit(n % 8, k)
  {
    var q, r := n / 8, n % 8;
    if k == 1 {
      OddAs(4 * q, r);
    } else if k == 2 {
      QuotientOf(n, 2, 4 * q + r / 2, r % 2);
      OddAs(2 * q, r / 2);
    } else {
      QuotientOf(n, 4, 2 * q + r / 4, r % 4);
      OddAs(q, r / 4);
    }
  }

  lemma OddAs(half: nat, r: nat)
    ensures (2 * half + r) % 2 == r % 2
  {
  }

  lemma QuotientOf(n: nat, d: nat, q: nat, r: nat)
    requires d in {2, 4} && r < d && n == d * q + r
    ensures n / d == q
  {
    if d == 2 { assert (2 * q + r) / 2 == q; } else { assert (4 * q + r) / 4 == q; }
  }

  function SendPath(name: seq<Byte>): Path { if LastComma(name) < 0 then name else name[..LastComma(name)] }

  function SendMode(name: seq<Byte>): nat {
    var k := LastComma(name);
    if k < 0 || ToNumber(name[k + 1..]) >= WORD then 0x1a4 else ToNumber(name[k + 1..]) % 512
  }

  /** S_ISLNK on the mode a send gives. */
  predicate IsLink(mode: nat) { mode / 4096 % 16 == 10 }

  /** Where do_send takes the link branch; a mode that does not parse means a plain file. */
  predicate SendsLink(name: seq<Byte>) {
    var k := LastComma(name);
    k >= 0 && ToNumber(name[k + 1..]) < WORD && IsLink(ToNumber(name[k + 1..]))
  }

  predicate Links(files: Files, path: Path, e: Env) { e.made && path !in files }

  const LINK_PERM: nat := 0x1ff

  /** handle_send_link: one data message with the target, then DONE. A link that cannot be made ends the session. */
  function LinkStep(files: Files, path: Path, s: seq<Byte>, e: Env): (r: Out)
    requires Sane(e)
    ensures |r.rest| <= |s|
  {
    if |s| < 8 then Out(files, s, [], false)
    else if HeadId(s) != DATA then Out(files, s[8..], Fail(Ascii("invalid data message: expected ID_DATA")), false)
    else if HeadSize(s) > SYNC_DATA_MAX then Out(files, s[8..], Fail(Ascii("oversize data message")), false)
    else if |s| - 8 < HeadSize(s) then Out(files, s[8..], [], false)
    else
      var rest := s[8 + HeadSize(s)..];
      if !Links(files, path, e) then Out(files, rest, Fail(e.reason), false)
      else
        var linked := files[path := File(CString(s[8..8 + HeadSize(s)] + e.junk), e.now, LINK_PERM, true)];
        if |rest| < 8 then Out(linked, rest, [], false)
        else if HeadId(rest) != DONE then Out(linked, rest[8..], Fail(Ascii("invalid data message: expected ID_DONE")), false)
        else Out(linked, rest[8..], Okay(), true)
  }

  function LinkBody(target: seq<Byte>, time: nat): seq<Byte>
    requires |target| < SYNC_DATA_MAX && time < WORD
  {
    Message(DATA, target + [0]) + Header(DONE, time)
  }

  /**
   * A well-formed link is answered once either way, but only a link that was made leaves the next request next in
   * line: after a failure the session ends with the DONE message unread.
   */
  lemma LinkSent(files: Files, path: Path, target: seq<Byte>, time: nat, rest: seq<Byte>, e: Env)
    requires Sane(e) && 0 !in target && |target| < SYNC_DATA_MAX && time < WORD
    ensures LinkStep(files, path, LinkBody(target, time) + rest, e) ==
      if Links(files, path, e) then Out(files[path := File(target, e.now, 0x1ff, true)], rest, Okay(), true)
      else Out(files, Header(DONE, time) + rest, Fail(e.reason), false)
  {
    hide Header, HeadId, HeadSize, Message;
    var done := Header(DONE, time) + rest;
    assert LinkBody(target, time) + rest == Message(DATA, target + [0]) + done;
    MessageReads(DATA, target + [0], done);
    HeaderReads(DONE, time, rest);
    StringEnds(target, e.junk);
  }

  /** A link that does not start with its target is refused and ends the session; nothing is made. */
  lemma LinkRefused(files: Files, path: Path, s: seq<Byte>, e: Env)
    requires Sane(e) && (|s| < 8 || HeadId(s) != DATA || HeadSize(s) > 65536 || |s| - 8 < HeadSize(s))
    ensures var r := LinkStep(files, path, s, e);
      && !r.ok && r.files == files && r.rest == (if |s| < 8 then s else s[8..])
      && r.reply == if |s| < 8 then []
                    else if HeadId(s) != DATA then Fail(Ascii("invalid data message: expected ID_DATA"))
                    else if HeadSize(s) > 65536 then Fail(Ascii("oversize data message")) else []
  {
    hide Message, HeadId, HeadSize, Ascii;
  }

  /** Anything but DONE after the target is complained about, but the link is there by then. */
  lemma LinkWithoutDone(files: Files, path: Path, target: seq<Byte>, s: seq<Byte>, e: Env)
    requires Sane(e) && 0 !in target && |target| < SYNC_DATA_MAX && Links(files, path, e)
    requires |s| < 8 || HeadId(s) != DONE
    ensures var r := LinkStep(files, path, Message(DATA, target + [0]) + s, e);
      && !r.ok && r.files == files[path := File(target, e.now, LINK_PERM, true)]
      && r.reply == if |s| < 8 then [] else Fail(Ascii("invalid data message: expected ID_DONE"))
  {
    hide Message, HeadId, HeadSize, Ascii;
    MessageReads(DATA, target + [0], s);
    StringEnds(target, e.junk);
  }

  lemma {:induction false} StringEnds(target: seq<Byte>, junk: seq<Byte>)
    requires 0 !in target
    ensures CString(target + [0] + junk) == target
  {
    if target != [] {
      StringEnds(target[1..], junk);
      assert (target + [0] + junk)[1..] == target[1..] + [0] + junk;
    }
  }

  function SendStep(files: Files, name: seq<Byte>, s: seq<Byte>, e: Env): (r: Out)
    requires Sane(e)
    ensures |r.rest| <= |s|
  {
    var path := SendPath(name);
    if e.symlinks && SendsLink(name) then LinkStep(Unlink(files, path, e), path, s, e)
    else Receive(Opened(Unlink(files, path, e), path, Spread(SendMode(name)), e), s, e)
  }

  const REGULAR: nat := 0x8000
  const SYMLINK: nat := 0xa000

  function ModeOf(f: File): nat { (if f.link then SYMLINK else REGULAR) + f.perm }

  /** The mode that a stat gives for a link is one that a send takes for a link. */
  lemma LinkIsLink(f: File)
    requires f.perm < 4096
    ensures IsLink(ModeOf(f)) <==> f.link
    ensures ModeOf(f) / 4096 == if f.link then 10 else 8
  {
  }

  function StatReply(files: Files, path: Path): (r: seq<Byte>)
    ensures |r| == 16
  {
    if path !in files then Word(STAT) + Word(0) + Word(0) + Word(0)
    else Word(STAT) + Word(ModeOf(files[path]) % WORD) + Word(|files[path].data| % WORD) + Word(files[path].mtime % WORD)
  }

  /** The data messages of a file read to its end, or cut short by a failure. */
  function RecvData(pieces: seq<Read>, e: Env): seq<Byte>
    requires Sane(e) && forall r | r in pieces && r.Got? :: 1 <= |r.bytes| <= SYNC_DATA_MAX
    decreases pieces
  {
    if pieces == [] then Header(DONE, 0)
    else match pieces[0]
      case Got(c) => Message(DATA, c) + RecvData(pieces[1..], e)
      case Again => RecvData(pieces[1..], e)
      case Broke => Fail(e.reason)
  }

  function RecvReply(files: Files, path: Path, e: Env): seq<Byte>
    requires Sane(e)
  {
    if path !in files || !e.open then Fail(e.reason) else RecvData(e.pieces, e)
  }

  /** One request with its name read. */
  function Handle(files: Files, id: nat, name: seq<Byte>, rest: seq<Byte>, e: Env): (r: Out)
    requires Sane(e)
    ensures |r.rest| <= |rest|
  {
    if id == STAT then Out(files, rest, StatReply(files, name), true)
    else if id == LIST then Out(files, rest, e.listing, true)
    else if id == SEND then SendStep(files, name, rest, e)
    else if id == RECV then Out(files, rest, RecvReply(files, name, e), true)
    else if id == QUIT then Out(files, rest, [], false)
    else Out(files, rest, Fail(Ascii("unknown command")), false)
  }

  /** One request read from the stream and handled. */
  function Turn(files: Files, s: seq<Byte>, e: Env): (r: Out)
    requires Sane(e)
    ensures r.ok ==> |r.rest| < |s|
  {
    if |s| < 8 then Out(files, s, Fail(Ascii("command read failure")), false)
    else
      var n := HeadSize(s);
      if n > 1024 then Out(files, s[8..], Fail(Ascii("invalid namelen")), false)
      else if |s| - 8 < n then Out(files, s[8..], Fail(Ascii("filename read failure")), false)
      else Handle(files, HeadId(s), CString(s[8..8 + n]), s[8 + n..], e)
  }

  /** Each identifier is its own name, first letter first. */
  lemma WireNames()
    ensures Word(STAT) == Ascii("STAT") && Word(LIST) == Ascii("LIST") && Word(SEND) == Ascii("SEND")
    ensures Word(RECV) == Ascii("RECV") && Word(QUIT) == Ascii("QUIT") && [COMMA] == Ascii(",") && [ZERO] == Ascii("0")
    ensures Word(DONE) == Ascii("DONE") && Word(DATA) == Ascii("DATA") && Word(OKAY) == Ascii("OKAY") && Word(FAIL) == Ascii("FAIL")
  {
    assert [COMMA] == Ascii(",") && [ZERO] == Ascii("0");
    hide Ascii, Word;
    Letters(STAT, "STAT");
    Letters(LIST, "LIST");
    Letters(SEND, "SEND");
    Letters(RECV, "RECV");
    Letters(QUIT, "QUIT");
    Letters(DONE, "DONE");
    Letters(DATA, "DATA");
    Letters(OKAY, "OKAY");
    Letters(FAIL, "FAIL");
  }

  lemma Letters(id: nat, s: string)
    requires |s| == 4 && forall i | 0 <= i < 4 :: (s[i] as int) < 256
    requires id == s[0] as int + 256 * (s[1] as int) + 65536 * (s[2] as int) + 16777216 * (s[3] as int)
    ensures id < WORD && Word(id) == Ascii(s)
  {
    var a, b, c, d := s[0] as int, s[1] as int, s[2] as int, s[3] as int;
    Digit256(a, b + 256 * c + 65536 * d);
    Digit256(b, c + 256 * d);
    Digit256(c, d);
    assert id / 65536 == id / 256 / 256 && id / 16777216 == id / 256 / 256 / 256;
  }

  lemma Digit256(low: nat, high: nat)
    requires low < 256
    ensures (low + 256 * high) / 256 == high && (low + 256 * high) % 256 == low
  {
  }

  /** A name without a comma, or with a number too large behind it, is taken for 0644, which makes a file that everyone may read and write. */
  lemma PlainName(name: seq<Byte>)
    requires COMMA !in name || ToNumber(name[LastComma(name) + 1..]) >= WORD
    ensures !SendsLink(name) && Spread(SendMode(name)) == 6 * 64 + 6 * 8 + 6
    ensures COMMA !in name ==> SendPath(name) == name
  {
    hide ToNumber, Spread;
    if COMMA !in name { assert LastComma(name) < 0; }
    assert SendMode(name) == 0x1a4;
    EveryoneWrites();
  }

  lemma EveryoneWrites()
    ensures Spread(0x1a4) == 6 * 64 + 6 * 8 + 6
  {
    hide OrDigit;
    assert 0x1a4 / 64 % 8 == 6 && 0x1a4 / 8 % 8 == 4 && 0x1a4 % 8 == 4;
    FourOrSix();
  }

  lemma FourOrSix()
    ensures OrDigit(4, 6) == 6
  {
  }

  /** What cannot be read as a request is answered with a reason and ends the session, files untouched. */
  lemma TurnRefuses(files: Files, s: seq<Byte>, e: Env)
    requires Sane(e)
    ensures |s| < 8 ==> Turn(files, s, e) == Out(files, s, Fail(Ascii("command read failure")), false)
    ensures |s| >= 8 && HeadSize(s) > 1024 ==> Turn(files, s, e) == Out(files, s[8..], Fail(Ascii("invalid namelen")), false)
    ensures |s| >= 8 && |s| - 8 < HeadSize(s) <= 1024 ==>
      Turn(files, s, e) == Out(files, s[8..], Fail(Ascii("filename read failure")), false)
    ensures WholeRequest(s) && HeadId(s) !in {STAT, LIST, SEND, RECV, QUIT} ==>
      Turn(files, s, e) == Out(files, s[8 + HeadSize(s)..], Fail(Ascii("unknown command")), false)
  {
    hide Message, HeadId, HeadSize, Ascii, CString;
  }

  lemma ListAnswers(files: Files, path: Path, rest: seq<Byte>, e: Env)
    requires Sane(e) && |path| <= 1024
    ensures Turn(files, Message(LIST, path) + rest, e) == Out(files, rest, e.listing, true)
  {
    hide Turn, Message, CString;
    TurnHandles(files, LIST, path, rest, e);
  }

  /** A mode with a leading zero is octal. */
  lemma OctalMode()
    ensures ToNumber(Ascii("0644")) == 420
  {
    var s := Ascii("0644");
    assert s == [48, 54, 52, 52];
    assert s[1..] == [54, 52, 52] && s[1..][1..] == [52, 52] && s[1..][1..][1..] == [52] && s[1..][1..][1..][1..] == [];
    assert Digits([52], 8, 52) == Digits([], 8, 420);
    assert Digits([52, 52], 8, 6) == Digits([52], 8, 52) by { assert [52, 52][1..] == [52]; }
  }

  /** A whole request with its name. */
  predicate WholeRequest(s: seq<Byte>) { |s| >= 8 && HeadSize(s) <= 1024 && |s| - 8 >= HeadSize(s) }

  /** The session: what is answered and which files there are in the end, for any input whatever. */
  function Served(files: Files, s: seq<Byte>, envs: nat -> Env, k: nat): (Files, seq<Byte>)
    requires forall i :: Sane(envs(i))
    decreases |s|
  {
    var o := Turn(files, s, envs(k));
    if !o.ok then (o.files, o.reply)
    else
      var r := Served(o.files, o.rest, envs, k + 1);
      (r.0, o.reply + r.1)
  }

  // ---- Sessions of well-formed requests --------------------------------------------------

  datatype Req =
    | StatReq(path: Path)
    | SendReq(path: Path, mode: nat, chunks: seq<seq<Byte>>, time: nat)
    | LinkReq(path: Path, mode: nat, target: seq<Byte>, time: nat)
    | RecvReq(path: Path)

  /** No NUL in the name, a name of at most 1024 bytes (the mode included), chunks of at most 64K. */
  ghost predicate WellFormed(q: Req) {
    && 0 !in q.path
    && match q
       case SendReq(path, mode, chunks, time) => |SendName(path, mode)| <= 1024 && mode < WORD && time < WORD && Small(chunks)
       case LinkReq(path, mode, target, time) =>
         |SendName(path, mode)| <= 1024 && mode < WORD && time < WORD && 0 !in target && |target| < SYNC_DATA_MAX
       case _ => |q.path| <= 1024
  }

  /** The mode says what is sent, on a service that can tell. */
  predicate Fitting(q: Req, e: Env) {
    match q
    case SendReq(_, mode, _, _) => !(e.symlinks && IsLink(mode))
    case LinkReq(_, mode, _, _) => e.symlinks && IsLink(mode)
    case _ => true
  }

  /** The session ends with this request: a link that cannot be made. */
  predicate Ends(files: Files, q: Req, e: Env) { q.LinkReq? && !Links(Unlink(files, q.path, e), q.path, e) }

  ghost function Encode(q: Req): seq<Byte>
    requires WellFormed(q)
  {
    match q
    case StatReq(path) => Message(STAT, path)
    case SendReq(path, mode, chunks, time) => Message(SEND, SendName(path, mode)) + Body(chunks, time)
    case LinkReq(path, mode, target, time) => Message(SEND, SendName(path, mode)) + LinkBody(target, time)
    case RecvReq(path) => Message(RECV, path)
  }

  ghost function EncodeAll(qs: seq<Req>): seq<Byte>
    requires forall q | q in qs :: WellFormed(q)
  {
    if qs == [] then [] else Encode(qs[0]) + EncodeAll(qs[1..])
  }

  /** The answer to one request and the files after it, told without the byte streams. */
  ghost function Answer(files: Files, q: Req, e: Env): (Files, seq<Byte>)
    requires WellFormed(q) && Sane(e)
  {
    match q
    case StatReq(path) => (files, StatReply(files, path))
    case RecvReq(path) => (files, RecvReply(files, path, e))
    case SendReq(path, mode, chunks, time) =>
      var o := Finish(WriteAll(Opened(Unlink(files, path, e), path, Spread(mode % 512), e), chunks, e), time, []);
      (o.files, o.reply)
    case LinkReq(path, mode, target, time) =>
      var there := Unlink(files, path, e);
      if Links(there, path, e) then (there[path := File(target, e.now, LINK_PERM, true)], Okay()) else (there, Fail(e.reason))
  }

  ghost function Answers(files: Files, qs: seq<Req>, envs: nat -> Env, k: nat): (Files, seq<Byte>)
    requires (forall q | q in qs :: WellFormed(q)) && forall i :: Sane(envs(i))
    decreases qs
  {
    if qs == [] then (files, [])
    else
      var a := Answer(files, qs[0], envs(k));
      if Ends(files, qs[0], envs(k)) then a else
      var rest := Answers(a.0, qs[1..], envs, k + 1);
      (rest.0, a.1 + rest.1)
  }

  lemma NameIsWhole(path: Path, mode: nat)
    requires 0 !in path
    ensures CString(SendName(path, mode)) == SendName(path, mode)
  {
    DecimalDigits(mode);
    CStringWhole(SendName(path, mode));
  }

  lemma DoSendAnswers(files: Files, path: Path, mode: nat, chunks: seq<seq<Byte>>, time: nat, rest: seq<Byte>, e: Env)
    requires WellFormed(SendReq(path, mode, chunks, time)) && Sane(e) && Fitting(SendReq(path, mode, chunks, time), e)
    ensures var o := SendStep(files, SendName(path, mode), Body(chunks, time) + rest, e);
      o.ok && o.rest == rest && (o.files, o.reply) == Answer(files, SendReq(path, mode, chunks, time), e)
  {
    hide Body, Receive, WriteAll, Write, Spread, Opened;
    SplitRoundTrip(path, mode);
    ReceiveBody(Opened(Unlink(files, path, e), path, Spread(mode % 512), e), chunks, time, rest, e);
  }

  lemma DoLinkAnswers(files: Files, q: Req, rest: seq<Byte>, e: Env)
    requires q.LinkReq? && WellFormed(q) && Sane(e) && Fitting(q, e)
    ensures SendStep(files, SendName(q.path, q.mode), LinkBody(q.target, q.time) + rest, e) ==
      Out(Answer(files, q, e).0, LeftOver(files, q, rest, e), Answer(files, q, e).1, !Ends(files, q, e))
  {
    hide LinkBody, LinkStep, Message;
    SplitRoundTrip(q.path, q.mode);
    LinkSent(Unlink(files, q.path, e), q.path, q.target, q.time, rest, e);
  }

  /** What is unread after a request: the rest, behind the DONE of a link that could not be made. */
  ghost function LeftOver(files: Files, q: Req, rest: seq<Byte>, e: Env): seq<Byte>
    requires WellFormed(q)
  {
    if Ends(files, q, e) then Header(DONE, q.time) + rest else rest
  }

  lemma TurnAnswers(files: Files, q: Req, rest: seq<Byte>, e: Env)
    requires WellFormed(q) && Sane(e) && Fitting(q, e)
    ensures var a := Answer(files, q, e);
      Turn(files, Encode(q) + rest, e) == Out(a.0, LeftOver(files, q, rest, e), a.1, !Ends(files, q, e))
  {
    hide Message, Turn, Body, LinkBody, SendStep, StatReply, RecvReply, CString, SendName, WriteAll, Finish, Opened, Sane;
    match q
    case StatReq(path) =>
      TurnHandles(files, STAT, path, rest, e);
      CStringWhole(path);
    case RecvReq(path) =>
      TurnHandles(files, RECV, path, rest, e);
      CStringWhole(path);
    case SendReq(path, mode, chunks, time) =>
      var name, body := SendName(path, mode), Body(chunks, time) + rest;
      assert Encode(q) + rest == Message(SEND, name) + body;
      TurnHandles(files, SEND, name, body, e);
      NameIsWhole(path, mode);
      DoSendAnswers(files, path, mode, chunks, time, rest, e);
    case LinkReq(path, mode, target, time) =>
      var name, body := SendName(path, mode), LinkBody(target, time) + rest;
      assert Encode(q) + rest == Message(SEND, name) + body;
      TurnHandles(files, SEND, name, body, e);
      NameIsWhole(path, mode);
      DoLinkAnswers(files, q, rest, e);
  }

  lemma TurnHandles(files: Files, id: nat, name: seq<Byte>, rest: seq<Byte>, e: Env)
    requires Sane(e) && id < WORD && |name| <= 1024
    ensures Turn(files, Message(id, name) + rest, e) == Handle(files, id, CString(name), rest, e)
  {
    hide Message, HeadId, HeadSize, Handle;
    MessageReads(id, name, rest);
  }

  /**
   * Both streams stay aligned: for every session of well-formed requests, whichever calls fail, the service answers
   * each request once and in order, and stops at QUIT or at the first link it cannot make.
   */
  lemma {:induction false} Session(files: Files, qs: seq<Req>, tail: seq<Byte>, envs: nat -> Env, k: nat)
    requires (forall q | q in qs :: WellFormed(q)) && forall i :: Sane(envs(i))
    requires forall i | 0 <= i < |qs| :: Fitting(qs[i], envs(k + i))
    ensures Served(files, EncodeAll(qs) + Header(QUIT, 0) + tail, envs, k) == Answers(files, qs, envs, k)
    decreases qs
  {
    hide Encode, Answer, Turn, Ends, Fitting;
    if qs == [] {
      assert EncodeAll(qs) + Header(QUIT, 0) + tail == Message(QUIT, []) + tail;
      TurnQuits(files, tail, envs(k));
    } else {
      var rest := EncodeAll(qs[1..]) + Header(QUIT, 0) + tail;
      assert EncodeAll(qs) + Header(QUIT, 0) + tail == Encode(qs[0]) + rest;
      TurnAnswers(files, qs[0], rest, envs(k));
      if !Ends(files, qs[0], envs(k)) {
        Session(Answer(files, qs[0], envs(k)).0, qs[1..], tail, envs, k + 1);
      }
    }
  }

  lemma TurnQuits(files: Files, tail: seq<Byte>, e: Env)
    requires Sane(e)
    ensures Turn(files, Message(QUIT, []) + tail, e) == Out(files, tail, [], false)
  {
    hide Message, HeadId, HeadSize;
    MessageReads(QUIT, [], tail);
  }

  /** A send whose name, comma and mode included, is longer than 1024 bytes ends the session. */
  lemma LongNameEndsSession(files: Files, path: Path, mode: nat, rest: seq<Byte>, envs: nat -> Env, k: nat)
    requires 1024 < |SendName(path, mode)| < WORD && forall i :: Sane(envs(i))
    ensures Served(files, Message(SEND, SendName(path, mode)) + rest, envs, k) == (files, Fail(Ascii("invalid namelen")))
  {
    hide Message, HeadId, HeadSize;
    MessageReads(SEND, SendName(path, mode), rest);
  }

  lemma HeadOf(s: seq<Byte>, head: seq<Byte>)
    requires |s| >= 8 && head == s[..8]
    ensures HeadId(head) == HeadId(s) && HeadSize(head) == HeadSize(s)
  {
    assert head[..4] == s[..4] && head[4..8] == s[4..8];
  }

  // ---- The service -----------------------------------------------------------------------

  class SyncService {
    var input: seq<Byte>
    var output: seq<Byte>
    var files: Files

    /** readx: all the bytes asked for, or failure. */
    method ReadX(n: nat) returns (ok: bool, b: seq<Byte>)
      modifies `input
      ensures ok <==> |old(input)| >= n
      ensures ok ==> b == old(input)[..n] && input == old(input)[n..]
      ensures !ok ==> input == old(input)
    {
      ok, b := |input| >= n, [];
      if ok {
        b, input := input[..n], input[n..];
      }
    }

    method FailMessage(reason: seq<Byte>)
      requires |reason| < WORD
      modifies `output
      ensures output == old(output) + Fail(reason)
    {
      output := output + Header(FAIL, |reason|);
      output := output + reason;
      assert output == old(output) + Fail(reason);
    }

    method Remove(path: Path, e: Env)
      modifies `files
      ensures files == Unlink(old(files), path, e)
    {
      if e.unlink {
        files := files - {path};
      }
    }

    /** One write to the open file; a failed one closes and removes it and is reported at once. */
    method WriteChunk(path: Path, was: seq<Byte>, written: seq<Byte>, writes: nat, c: seq<Byte>, e: Env, ghost sent: seq<Byte>)
      returns (open: bool, written': seq<Byte>, writes': nat, ghost sent': seq<Byte>)
      requires Sane(e) && path in files
      modifies `files, `output
      ensures Put(files, path, open, was, written', writes', sent') == Write(Put(old(files), path, true, was, written, writes, sent), c, e)
      ensures output == old(output) + sent'[|sent|..] && |sent'| >= |sent| && sent' == sent + sent'[|sent|..]
    {
      hide Over, Message;
      if e.failAt == Some(writes) {
        written' := written + c[..if e.partial < |c| then e.partial else |c|];
        files := files[path := files[path].(data := Over(was, written'))];
        Remove(path, e);
        open, writes' := false, writes;
        FailMessage(e.reason);
        sent' := sent + Fail(e.reason);
        assert sent'[|sent|..] == Fail(e.reason);
      } else {
        written', writes', open := written + c, writes + 1, true;
        files := files[path := files[path].(data := Over(was, written'))];
        sent' := sent;
        assert sent'[|sent|..] == [] && output + [] == output;
      }
    }

    method OpenFile(path: Path, perm: nat, e: Env) returns (open: bool, was: seq<Byte>, ghost sent: seq<Byte>)
      requires Sane(e)
      modifies `files, `output
      ensures Put(files, path, open, was, [], 0, sent) == Opened(old(files), path, perm, e)
      ensures output == old(output) + sent
    {
      if e.open && !(path in files && files[path].link) {
        if path !in files {
          files := files[path := File([], 0, perm, false)];
        }
        open, was, sent := true, files[path].data, [];
        assert files == old(files)[path := files[path]];
      } else {
        FailMessage(e.reason);
        open, was, sent := false, [], Fail(e.reason);
      }
    }

    method DoSend(name: seq<Byte>, e: Env) returns (rc: int)
      requires Sane(e)
      modifies this
      ensures var o := SendStep(old(files), name, old(input), e);
        files == o.files && output == old(output) + o.reply && (rc == 0 <==> o.ok) && input == o.rest
    {
      var k := LastComma(name);
      var path, mode, isLink := name, 0x1a4, false;
      if k >= 0 {
        path := name[..k];
        var number := ToNumber(name[k + 1..]);
        if number < WORD {
          isLink := e.symlinks && IsLink(number);
          mode := number % 512;
        }
      }
      Remove(path, e);
      if isLink {
        rc := HandleSendLink(path, e);
      } else {
        rc := HandleSendFile(path, Spread(mode), e);
      }
    }

    method HandleSendLink(path: Path, e: Env) returns (rc: int)
      requires Sane(e)
      modifies this
      ensures Out(files, input, output, rc == 0) ==
        var o := LinkStep(old(files), path, old(input), e); o.(reply := old(output) + o.reply)
    {
      hide Message, Ascii, CString, Header;
      rc := -1;
      assert output + [] == output;
      var ok, head := ReadX(8);
      if !ok {
        return;
      }
      HeadOf(old(input), head);
      if HeadId(head) != DATA {
        FailMessage(Ascii("invalid data message: expected ID_DATA"));
        return;
      }
      var n := HeadSize(head);
      if n > SYNC_DATA_MAX {
        FailMessage(Ascii("oversize data message"));
        return;
      }
      var buffer;
      ok, buffer := ReadX(n);
      if !ok {
        return;
      }
      assert buffer == old(input)[8..8 + n] && input == old(input)[8 + n..];
      if !e.made || path in files {
        FailMessage(e.reason);
        return;
      }
      files := files[path := File(CString(buffer + e.junk), e.now, LINK_PERM, true)];
      rc := FinishLink();
    }

    /** The DONE message after a link that was made. */
    method FinishLink() returns (rc: int)
      modifies `input, `output
      ensures (input, output, rc == 0) ==
        var s := old(input);
        if |s| < 8 then (s, old(output), false)
        else if HeadId(s) == DONE then (s[8..], old(output) + Okay(), true)
        else (s[8..], old(output) + Fail(Ascii("invalid data message: expected ID_DONE")), false)
    {
      hide Message, Ascii, HeadId;
      var ok, head := ReadX(8);
      if !ok {
        return -1;
      }
      HeadOf(old(input), head);
      if HeadId(head) == DONE {
        output := output + Header(OKAY, 0);
        return 0;
      }
      FailMessage(Ascii("invalid data message: expected ID_DONE"));
      return -1;
    }

    method DoStat(path: Path)
      modifies `output
      ensures output == old(output) + StatReply(files, path)
    {
      var mode, size, time := 0, 0, 0;
      if path in files {
        mode, size, time := ModeOf(files[path]) % WORD, |files[path].data| % WORD, files[path].mtime % WORD;
      }
      output := output + (Word(STAT) + Word(mode) + Word(size) + Word(time));
    }

    method DoRecv(path: Path, e: Env)
      requires Sane(e)
      modifies `output
      ensures output == old(output) + RecvReply(files, path, e)
    {
      hide Message, Header;
      if path !in files || !e.open {
        FailMessage(e.reason);
        return;
      }
      ghost var done: seq<Byte> := [];
      assert e.pieces[0..] == e.pieces;
      for i := 0 to |e.pieces|
        invariant output == old(output) + done
        invariant RecvData(e.pieces, e) == done + RecvData(e.pieces[i..], e)
      {
        assert e.pieces[i..][1..] == e.pieces[i + 1..] && e.pieces[i] in e.pieces;
        match e.pieces[i]
        case Again =>
        case Got(c) =>
          output := output + Message(DATA, c);
          done := done + Message(DATA, c);
        case Broke =>
          FailMessage(e.reason);
          return;
      }
      output := output + Header(DONE, 0);
    }

    method HandleRequest(id: nat, name: seq<Byte>, e: Env) returns (more: bool)
      requires Sane(e)
      modifies this
      ensures var o := Handle(old(files), id, name, old(input), e);
        files == o.files && input == o.rest && output == old(output) + o.reply && more == o.ok
    {
      hide SendStep, StatReply, RecvReply, Ascii, Message;
      more := true;
      if id == STAT {
        DoStat(name);
      } else if id == LIST {
        output := output + e.listing;
      } else if id == SEND {
        var rc := DoSend(name, e);
        more := rc == 0;
      } else if id == RECV {
        DoRecv(name, e);
      } else {
        more := false;
        if id != QUIT {
          FailMessage(Ascii("unknown command"));
        }
      }
    }

    method ServeOne(e: Env) returns (more: bool)
      requires Sane(e)
      modifies this
      ensures var o := Turn(old(files), old(input), e);
        files == o.files && input == o.rest && output == old(output) + o.reply && more == o.ok
    {
      hide Message, Header, HeadId, HeadSize, Handle, CString, Ascii;
      ghost var s := input;
      var ok, head := ReadX(8);
      if !ok {
        FailMessage(Ascii("command read failure"));
        return false;
      }
      HeadOfPrefix(s);
      var n, name := HeadSize(head), [];
      if n > 1024 {
        FailMessage(Ascii("invalid namelen"));
        return false;
      }
      ok, name := ReadX(n);
      if !ok {
        FailMessage(Ascii("filename read failure"));
        return false;
      }
      assert name == s[8..8 + n] && input == s[8 + n..];
      more := HandleRequest(HeadId(head), CString(name), e);
    }

    /** The request loop, over any input. */
    method Serve(envs: nat -> Env)
      requires forall i :: Sane(envs(i))
      modifies this
      ensures files == Served(old(files), old(input), envs, 0).0
      ensures output == old(output) + Served(old(files), old(input), envs, 0).1
    {
      hide Turn;
      ghost var goal, sent := Served(files, input, envs, 0), [];
      var more, k := true, 0;
      while more
        invariant output == old(output) + sent
        invariant more ==> goal.0 == Served(files, input, envs, k).0 && goal.1 == sent + Served(files, input, envs, k).1
        invariant !more ==> goal == (files, sent)
        decreases more, |input|
      {
        sent := sent + Turn(files, input, envs(k)).reply;
        more := ServeOne(envs(k));
        k := k + 1;
      }
    }

    /** One message of the body; a malformed one is answered at once. */
    method ReadPart() returns (part: Part)
      modifies `input, `output
      ensures part == NextPart(old(input)) && input == part.rest
      ensures output == old(output) + if part.Bad? then part.message else []
    {
      hide Message, HeadId, HeadSize, Ascii;
      ghost var s := input;
      var ok, head := ReadX(8);
      if !ok { return Cut(input); }
      HeadOfPrefix(s);
      var id, len := HeadId(head), HeadSize(head);
      if id != DATA {
        if id == DONE { return End(len, input); }
        FailMessage(Ascii("invalid data message"));
        return Bad(Fail(Ascii("invalid data message")), input);
      }
      if len > SYNC_DATA_MAX {
        FailMessage(Ascii("oversize data message"));
        return Bad(Fail(Ascii("oversize data message")), input);
      }
      var c;
      ok, c := ReadX(len);
      if !ok { return Cut(input); }
      assert c == s[8..8 + len] && input == s[8 + len..];
      part := Chunk(c, input);
    }

    method HandleSendFile(path: Path, perm: nat, e: Env) returns (rc: int)
      requires Sane(e)
      modifies this
      ensures var o := Receive(Opened(old(files), path, perm, e), old(input), e);
        files == o.files && output == old(output) + o.reply && (rc == 0 <==> o.ok) && input == o.rest
    {
      hide NextPart, Write, Opened, Unlink, Header, Receive;
      ghost var goal, sent := Receive(Opened(files, path, perm, e), input, e), [];
      var open, was;
      open, was, sent := OpenFile(path, perm, e);
      var written: seq<Byte>, writes: nat := [], 0;
      while true
        invariant output == old(output) + sent
        invariant open ==> path in files
        invariant goal == Receive(Put(files, path, open, was, written, writes, sent), input, e)
        decreases |input|
      {
        ReceiveStep(Put(files, path, open, was, written, writes, sent), input, e);
        var part := ReadPart();
        match part
        case Cut(_) =>
          Remove(path, e);
          assert sent + [] == sent;
          return -1;
        case Bad(_, _) =>
          Remove(path, e);
          return -1;
        case End(time, _) =>
          if open {
            files := files[path := files[path].(mtime := time)];
            output := output + Okay();
          }
          return 0;
        case Chunk(c, _) =>
          if open {
            open, written, writes, sent := WriteChunk(path, was, written, writes, c, e, sent);
          } else {
            ClosedWrite(Put(files, path, open, was, written, writes, sent), c, e);
          }
      }
    }
  }

  lemma ReceiveStep(p: Put, s: seq<Byte>, e: Env)
    requires Sane(e) && Proper(p)
    ensures var n, r := NextPart(s), Receive(p, s, e);
      && (n.Cut? ==> r == Abandon(p, [], n.rest, e)) && (n.Bad? ==> r == Abandon(p, n.message, n.rest, e))
      && (n.End? ==> r == Finish(p, n.time, n.rest)) && (n.Chunk? ==> r == Receive(Write(p, n.bytes, e), n.rest, e))
  {
    hide Write, Finish, NextPart;
  }

  lemma HeadOfPrefix(s: seq<Byte>)
    requires |s| >= 8
    ensures HeadId(s[..8]) == HeadId(s) && HeadSize(s[..8]) == HeadSize(s)
  {
    assert s[..8][..4] == s[..4] && s[..8][4..8] == s[4..8];
  }

  lemma ClosedWrite(p: Put, c: seq<Byte>, e: Env)
    requires Sane(e) && Proper(p) && !p.open
    ensures Write(p, c, e) == p
  {
  }
}
