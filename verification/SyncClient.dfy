/** The host side of adb's file sync, and both sides together: pushing, pulling, and comparing before pushing. */
module SyncClient {
  import opened Util
  import opened SyncWire
  import opened SyncServer

  // ---- What a push sends -----------------------------------------------------------------

  /** A buffer cut into pieces of 64K, the last one shorter. */
  function Cuts(content: seq<Byte>): (chunks: seq<seq<Byte>>)
    ensures Flatten(chunks) == content && forall c | c in chunks :: 1 <= |c| <= SYNC_DATA_MAX
    ensures forall i | 0 <= i < |chunks| - 1 :: |chunks[i]| == 65536
  {
    if content == [] then []
    else if |content| <= SYNC_DATA_MAX then [content]
    else [content[..SYNC_DATA_MAX]] + Cuts(content[SYNC_DATA_MAX..])
  }

  predicate ReadSizes(pieces: seq<Read>) { forall r | r in pieces && r.Got? :: 1 <= |r.bytes| <= SYNC_DATA_MAX }

  /** The pieces read before the end of the file or an error. */
  function UntilBroken(pieces: seq<Read>): seq<seq<Byte>> {
    if pieces == [] || pieces[0].Broke? then []
    else (if pieces[0].Got? then [pieces[0].bytes] else []) + UntilBroken(pieces[1..])
  }

  /** All the pieces of the file, errors ignored. */
  function Pieces(pieces: seq<Read>): seq<seq<Byte>> {
    if pieces == [] then [] else (if pieces[0].Got? then [pieces[0].bytes] else []) + Pieces(pieces[1..])
  }

  /**
   * Where the content comes from: an APK held in memory, or a file that may fail to open or to be read, with the target
   * that readlink gives if it is a link.
   */
  datatype Source = Buffer(content: seq<Byte>) | Local(open: bool, pieces: seq<Read>, target: Option<seq<Byte>>)

  predicate GoodTarget(target: Option<seq<Byte>>) { target.Some? ==> 0 !in target.value && |target.value| < SYNC_DATA_MAX }

  predicate GoodSource(src: Source) { src.Local? ==> ReadSizes(src.pieces) && GoodTarget(src.target) }

  function Sent(src: Source): seq<seq<Byte>> {
    match src
    case Buffer(content) => Cuts(content)
    case Local(open, pieces, _) => if open then UntilBroken(pieces) else []
  }

  function Whole(src: Source): seq<Byte> {
    match src
    case Buffer(content) => content
    case Local(_, pieces, _) => Flatten(Pieces(pieces))
  }

  lemma {:induction false} SmallPieces(pieces: seq<Read>)
    requires ReadSizes(pieces)
    ensures forall c | c in UntilBroken(pieces) :: 1 <= |c| <= SYNC_DATA_MAX
  {
    if pieces != [] && !pieces[0].Broke? {
      assert pieces[0] in pieces;
      SmallPieces(pieces[1..]);
    }
  }

  lemma SentIsSmall(src: Source)
    requires GoodSource(src)
    ensures Small(Sent(src))
  {
    if src.Local? { SmallPieces(src.pieces); }
  }

  ghost predicate DataAfterError(pieces: seq<Read>) {
    exists i, j :: 0 <= i < j < |pieces| && pieces[i].Broke? && pieces[j].Got?
  }

  /** All of the source is sent exactly when it can be opened and no error hides a piece of it; an error itself goes unnoticed. */
  lemma SentIsSourceIff(src: Source)
    requires GoodSource(src)
    ensures Flatten(Sent(src)) == Whole(src) <==>
      (src.Buffer? || (src.open && !DataAfterError(src.pieces)) || Whole(src) == [])
  {
    if src.Local? {
      UntilBrokenIsAllIff(src.pieces);
      NothingOfNothing(src.pieces);
    }
  }

  lemma {:induction false} LengthOfPieces(pieces: seq<Read>)
    requires ReadSizes(pieces)
    ensures (exists j :: 0 <= j < |pieces| && pieces[j].Got?) <==> |Flatten(Pieces(pieces))| > 0
  {
    if pieces != [] {
      var rest := pieces[1..];
      assert pieces[0] in pieces;
      LengthOfPieces(rest);
      FlattenFirst(pieces);
      if pieces[0].Got? {
        assert 0 <= 0 < |pieces| && pieces[0].Got?;
      } else if j :| 0 <= j < |pieces| && pieces[j].Got? {
        assert rest[j - 1].Got?;
      }
      if j :| 0 <= j < |rest| && rest[j].Got? { assert pieces[j + 1].Got?; }
    }
  }

  lemma FlattenFirst(pieces: seq<Read>)
    requires pieces != []
    ensures Flatten(Pieces(pieces)) == (if pieces[0].Got? then pieces[0].bytes else []) + Flatten(Pieces(pieces[1..]))
    ensures !pieces[0].Broke? ==>
      Flatten(UntilBroken(pieces)) == (if pieces[0].Got? then pieces[0].bytes else []) + Flatten(UntilBroken(pieces[1..]))
  {
    if pieces[0].Got? {
      var c := pieces[0].bytes;
      assert ([c] + Pieces(pieces[1..]))[1..] == Pieces(pieces[1..]);
      assert ([c] + UntilBroken(pieces[1..]))[1..] == UntilBroken(pieces[1..]);
    } else {
      assert [] + Pieces(pieces[1..]) == Pieces(pieces[1..]);
      assert [] + UntilBroken(pieces[1..]) == UntilBroken(pieces[1..]);
    }
  }

  lemma NothingOfNothing(pieces: seq<Read>)
    requires ReadSizes(pieces)
    ensures Flatten(Pieces(pieces)) == [] ==> Flatten(UntilBroken(pieces)) == []
  {
    if Flatten(Pieces(pieces)) == [] {
      LengthOfPieces(pieces);
      NoneGot(pieces);
    }
  }

  lemma {:induction false} NoneGot(pieces: seq<Read>)
    requires !exists j :: 0 <= j < |pieces| && pieces[j].Got?
    ensures UntilBroken(pieces) == []
  {
    if pieces != [] && !pieces[0].Broke? {
      var rest := pieces[1..];
      assert forall j | 0 <= j < |rest| :: rest[j] == pieces[j + 1];
      NoneGot(rest);
    }
  }

  lemma {:induction false} UntilBrokenIsAllIff(pieces: seq<Read>)
    requires ReadSizes(pieces)
    ensures Flatten(UntilBroken(pieces)) == Flatten(Pieces(pieces)) <==> !DataAfterError(pieces)
  {
    if pieces != [] {
      var rest := pieces[1..];
      FlattenFirst(pieces);
      if pieces[0].Broke? {
        LengthOfPieces(rest);
        if j :| 0 <= j < |rest| && rest[j].Got? {
          assert pieces[0].Broke? && pieces[j + 1].Got?;
        }
        if i, j :| 0 <= i < j < |pieces| && pieces[i].Broke? && pieces[j].Got? {
          assert rest[j - 1].Got?;
        }
      } else {
        UntilBrokenIsAllIff(rest);
        ErrorFurtherOn(pieces);
        SamePrefix(if pieces[0].Got? then pieces[0].bytes else [], Flatten(UntilBroken(rest)), Flatten(Pieces(rest)));
      }
    }
  }

  lemma SamePrefix(x: seq<Byte>, a: seq<Byte>, b: seq<Byte>)
    ensures x + a == x + b <==> a == b
  {
    assert (x + a)[|x|..] == a && (x + b)[|x|..] == b;
  }

  lemma ErrorFurtherOn(pieces: seq<Read>)
    requires pieces != [] && !pieces[0].Broke?
    ensures DataAfterError(pieces) <==> DataAfterError(pieces[1..])
  {
    var rest := pieces[1..];
    if i, j :| 0 <= i < j < |pieces| && pieces[i].Broke? && pieces[j].Got? {
      assert rest[i - 1].Broke? && rest[j - 1].Got?;
    }
    if i, j :| 0 <= i < j < |rest| && rest[i].Broke? && rest[j].Got? {
      assert pieces[i + 1].Broke? && pieces[j + 1].Got?;
    }
  }

  // ---- Reading the answer ----------------------------------------------------------------

  /** A call returns, or bytes arrive past the end of the 64K buffer. */
  datatype Result = Returns(rc: int) | Overruns

  /**
   * readx with a length that reads as negative: a count of bytes past anything there is. `big` is whether read takes such a
   * count; then everything that follows goes into the buffer.
   */
  function ReadTooMuch(big: bool, following: nat): Result {
    if big && following > SYNC_DATA_MAX then Overruns else Returns(-1)
  }

  /** How much of a reason is read: the length is a signed int, cut to 256. */
  function ReasonLength(size: nat): int
    requires size < WORD
  {
    if Signed(size) > 256 then 256 else Signed(size)
  }

  /** The status after a send: the result and what is left of the stream. */
  function ReadStatus(big: bool, s: seq<Byte>): (Result, seq<Byte>) {
    if |s| < 8 then (Returns(-1), s)
    else if HeadId(s) == OKAY then (Returns(0), s[8..])
    else if HeadId(s) != FAIL then (Returns(-1), s[8..])
    else
      var n := ReasonLength(HeadSize(s));
      if n < 0 then (ReadTooMuch(big, |s| - 8), s[8..])
      else if |s| - 8 < n then (Returns(-1), s[8..])
      else (Returns(-1), s[8 + n..])
  }

  lemma OkayIsRead(big: bool, rest: seq<Byte>)
    ensures ReadStatus(big, Okay() + rest) == (Returns(0), rest)
  {
    HeaderReads(OKAY, 0, rest);
  }

  /** A failure is read to its end exactly when its reason is at most 256 bytes long, and can overrun from 2^31 bytes on. */
  lemma FailIsReadIff(big: bool, reason: seq<Byte>, rest: seq<Byte>)
    requires |reason| < WORD
    ensures ReadStatus(big, Fail(reason) + rest) == (Returns(-1), rest) <==> |reason| <= 256
    ensures ReadStatus(big, Fail(reason) + rest).0 == Overruns <==> big && |reason| >= 0x8000_0000
  {
    hide Message, HeadId, HeadSize;
    var s, n := Fail(reason) + rest, |reason|;
    MessageReads(FAIL, reason, rest);
    if 256 < n < 0x8000_0000 {
      assert |s[8 + 256..]| > |rest|;
    } else if n >= 0x8000_0000 {
      assert |s| == 8 + n + |rest| && |s[8..]| > |rest|;
    }
  }

  /**
   * For any stream: reading a status overruns exactly when it is a failure with a length word of 2^31 or more, read takes
   * such a count, and more than 64K follow.
   */
  lemma StatusOverrunsIff(big: bool, s: seq<Byte>)
    ensures ReadStatus(big, s).0 == Overruns <==>
      big && |s| - 8 > SYNC_DATA_MAX && HeadId(s) == FAIL && HeadSize(s) >= 0x8000_0000
  {
    hide HeadId, HeadSize;
  }

  /** A status is a success exactly when it says so. */
  lemma SuccessIsOkay(big: bool, s: seq<Byte>)
    ensures ReadStatus(big, s).0 == Returns(0) <==> |s| >= 8 && HeadId(s) == OKAY
    ensures |s| >= 8 && HeadId(s) !in {OKAY, FAIL} ==> ReadStatus(big, s) == (Returns(-1), s[8..])
  {
    hide HeadId, HeadSize;
  }

  // ---- A whole push ----------------------------------------------------------------------

  ghost predicate Sendable(path: Path, mode: nat, src: Source, time: nat) {
    0 !in path && |SendName(path, mode)| <= 1024 && mode < WORD && time < WORD && GoodSource(src)
  }

  function PushBytes(path: Path, mode: nat, src: Source, time: nat): seq<Byte>
    requires |SendName(path, mode)| < WORD && time < WORD && forall c | c in Sent(src) :: |c| < WORD
  {
    Message(SEND, SendName(path, mode)) + Body(Sent(src), time)
  }

  /**
   * A push end to end: the service reads exactly the bytes of the push, the client exactly the one status that answers it,
   * and a push that is reported as done has stored what was read from the source, with the time that was sent, unless a
   * longer file could not be removed first.
   */
  lemma Push(files: Files, path: Path, mode: nat, src: Source, time: nat, rest: seq<Byte>, e: Env, big: bool, more: seq<Byte>)
    requires Sendable(path, mode, src, time) && Sane(e) && |e.reason| <= 256 && !(e.symlinks && IsLink(mode))
    ensures Small(Sent(src))
    ensures var o := Turn(files, PushBytes(path, mode, src, time) + rest, e);
      var content, there := Flatten(Sent(src)), Unlink(files, path, e);
      && o.ok && o.rest == rest
      && ReadStatus(big, o.reply + more) == (Returns(if AllStored(there, path, Sent(src), e) then 0 else -1), more)
      && (AllStored(there, path, Sent(src), e) ==> path in o.files && o.files[path].mtime == time)
      && (AllStored(there, path, Sent(src), e) ==> (o.files[path].data == content <==> |Kept(there, path)| <= |content|))
      && (AllStored(there, path, Sent(src), e) && path !in there ==> o.files[path].perm == Spread(mode % 512))
      && SameElsewhere(files, o.files, path)
  {
    SentIsSmall(src);
    var q := SendReq(path, mode, Sent(src), time);
    PushTurn(files, q, rest, e);
    PushedFile(files, q, e);
    OkayIsRead(big, more);
    FailIsReadIff(big, e.reason, more);
    StoredIsSentIff(Unlink(files, path, e), path, Spread(mode % 512), Flatten(Sent(src)), time);
  }

  /** What follows the request for a link: its target with a NUL, if readlink gave one, then DONE. */
  function LinkData(target: Option<seq<Byte>>, time: nat): seq<Byte>
    requires GoodTarget(target) && time < WORD
  {
    if target.Some? then LinkBody(target.value, time) else Header(DONE, time)
  }

  /**
   * A push of a link whose target could be read, to a service with links: reported as done exactly when the link was made,
   * which then holds the target; a failure is read too, but the service has ended the session.
   */
  lemma PushLink(files: Files, path: Path, mode: nat, target: seq<Byte>, time: nat, rest: seq<Byte>, e: Env, big: bool, more: seq<Byte>)
    requires WellFormed(LinkReq(path, mode, target, time)) && Sane(e) && |e.reason| <= 256 && e.symlinks && IsLink(mode)
    ensures var o := Turn(files, Message(SEND, SendName(path, mode)) + LinkData(Some(target), time) + rest, e);
      var made := Links(Unlink(files, path, e), path, e);
      && o.ok == made && ReadStatus(big, o.reply + more) == (Returns(if made then 0 else -1), more)
      && (made ==> o.rest == rest && path in o.files && o.files[path].link && o.files[path].data == target)
  {
    hide Turn, WellFormed, Message, LinkBody;
    TurnAnswers(files, LinkReq(path, mode, target, time), rest, e);
    OkayIsRead(big, more);
    FailIsReadIff(big, e.reason, more);
  }

  /** When the target cannot be read, that goes unnoticed on the host; the service misses it and ends the session. */
  lemma UnreadLinkEndsSession(files: Files, path: Path, mode: nat, time: nat, rest: seq<Byte>, e: Env)
    requires 0 !in path && |SendName(path, mode)| <= 1024 && mode < WORD && time < WORD && Sane(e) && e.symlinks && IsLink(mode)
    ensures Turn(files, Message(SEND, SendName(path, mode)) + LinkData(None, time) + rest, e) ==
      Out(Unlink(files, path, e), rest, Fail(Ascii("invalid data message: expected ID_DATA")), false)
  {
    hide Message, Turn, HeadId, HeadSize;
    var name, body := SendName(path, mode), Header(DONE, time) + rest;
    assert Message(SEND, name) + LinkData(None, time) + rest == Message(SEND, name) + body;
    TurnHandles(files, SEND, name, body, e);
    NameIsWhole(path, mode);
    SplitRoundTrip(path, mode);
    HeaderReads(DONE, time, rest);
  }

  /** A service without links stores the target and its NUL as a plain file. */
  lemma LinkBecomesFile(files: Files, path: Path, mode: nat, target: seq<Byte>, time: nat, rest: seq<Byte>, e: Env)
    requires WellFormed(LinkReq(path, mode, target, time)) && Sane(e) && !e.symlinks
    ensures var there := Unlink(files, path, e);
      var o := Turn(files, Message(SEND, SendName(path, mode)) + LinkData(Some(target), time) + rest, e);
      && o.ok && o.rest == rest
      && (AllStored(there, path, [target + [0]], e) && path !in there ==>
           path in o.files && !o.files[path].link && o.files[path].data == target + [0])
  {
    var q := SendReq(path, mode, [target + [0]], time);
    assert WellFormed(q);
    hide Message, Turn, WellFormed, SendName;
    assert LinkData(Some(target), time) == Body(q.chunks, time) by { OneMessage(target + [0], time); }
    PushTurn(files, q, rest, e);
    PushedFile(files, q, e);
    assert Flatten([target + [0]]) == target + [0];
  }

  lemma OneMessage(c: seq<Byte>, time: nat)
    requires |c| < WORD && time < WORD
    ensures Body([c], time) == Message(DATA, c) + Header(DONE, time)
  {
    assert [c][1..] == [];
    assert DataMessages([c]) == Message(DATA, c) + DataMessages([]);
  }

  lemma PushTurn(files: Files, q: Req, rest: seq<Byte>, e: Env)
    requires q.SendReq? && WellFormed(q) && Sane(e) && Fitting(q, e)
    ensures var a := Answer(files, q, e);
      Turn(files, Message(SEND, SendName(q.path, q.mode)) + Body(q.chunks, q.time) + rest, e) == Out(a.0, rest, a.1, true)
  {
    TurnAnswers(files, q, rest, e);
  }

  lemma PushedFile(files: Files, q: Req, e: Env)
    requires q.SendReq? && WellFormed(q) && Sane(e)
    ensures var (after, reply) := Answer(files, q, e); var there := Unlink(files, q.path, e);
      && reply == (if AllStored(there, q.path, q.chunks, e) then Okay() else Fail(e.reason))
      && (AllStored(there, q.path, q.chunks, e) ==> after == there[q.path := SentFile(there, q.path, Spread(q.mode % 512), Flatten(q.chunks), q.time)])
      && SameElsewhere(files, after, q.path)
  {
    hide Body, Receive, WriteAll, Write, Spread, Opened, Flatten, Finish, Message, SentFile;
    var there := Unlink(files, q.path, e);
    var p := Opened(there, q.path, Spread(q.mode % 512), e);
    SendOneReply(there, q.path, Spread(q.mode % 512), q.chunks, q.time, [], e);
    ReceiveBody(p, q.chunks, q.time, [], e);
    OthersKept(there, q.path, Spread(q.mode % 512), q.chunks, q.time, e);
  }

  ghost predicate SameElsewhere(a: Files, b: Files, path: Path) {
    forall other | other != path :: (other in a <==> other in b) && (other in a ==> a[other] == b[other])
  }

  lemma OthersKept(files: Files, path: Path, perm: nat, chunks: seq<seq<Byte>>, time: nat, e: Env)
    requires Sane(e)
    ensures SameElsewhere(files, Finish(WriteAll(Opened(files, path, perm, e), chunks, e), time, []).files, path)
  {
    WritesStayInPlace(Opened(files, path, perm, e), chunks, e);
  }

  lemma {:induction false} WritesStayInPlace(p: Put, chunks: seq<seq<Byte>>, e: Env)
    requires Sane(e) && Proper(p)
    ensures WriteAll(p, chunks, e).path == p.path && SameElsewhere(p.files, WriteAll(p, chunks, e).files, p.path)
    decreases chunks
  {
    if chunks != [] { WritesStayInPlace(Write(p, chunks[0], e), chunks[1..], e); }
  }

  // ---- Comparing before pushing ----------------------------------------------------------

  datatype Stat = Stat(mode: nat, size: nat, time: nat)

  /** A file to copy: where to, its own time, mode and size in 32 bits, and whether it is to be left alone. */
  datatype CopyInfo = CopyInfo(dst: Path, time: nat, mode: nat, size: nat, skip: bool)

  const REG: nat := 8
  const LNK: nat := 10

  /** The file type bits of a mode. */
  function TypeOf(mode: nat): (t: nat)
    ensures t < 16
  {
    mode / 4096 % 16
  }

  /** Both sides take the same modes for links. */
  lemma SameLinks(mode: nat)
    ensures IsLink(mode) <==> TypeOf(mode) == LNK
    ensures TypeOf(REGULAR) == REG && TypeOf(SYMLINK) == LNK
  {
  }

  /** Bitwise and of two types. */
  function AndType(a: nat, b: nat): nat {
    (if a / 8 % 2 == 1 && b / 8 % 2 == 1 then 8 else 0) + (if a / 4 % 2 == 1 && b / 4 % 2 == 1 then 4 else 0) +
    (if a / 2 % 2 == 1 && b / 2 % 2 == 1 then 2 else 0) + (if a % 2 == 1 && b % 2 == 1 then 1 else 0)
  }

  predicate Unchanged(ci: CopyInfo, st: Stat) {
    var t := AndType(TypeOf(ci.mode), TypeOf(st.mode));
    st.size == ci.size && ((t == REG && st.time == ci.time) || (t == LNK && st.time >= ci.time))
  }

  /** A regular file is skipped when size and time agree and the other is a regular file, a link or a socket. */
  lemma RegularSkippedIff(ci: CopyInfo, st: Stat)
    requires TypeOf(ci.mode) == REG
    ensures Unchanged(ci, st) <==> st.size == ci.size && st.time == ci.time && TypeOf(st.mode) >= REG
  {
    var t := TypeOf(st.mode);
    assert t / 8 % 2 == (if t >= 8 then 1 else 0);
  }

  /** A link is skipped against a link no older than it, but also against a regular file or socket of the same time. */
  lemma LinkSkippedIff(ci: CopyInfo, st: Stat)
    requires TypeOf(ci.mode) == LNK && TypeOf(st.mode) in {0, 1, 2, 4, 6, 8, 10, 12}
    ensures Unchanged(ci, st) <==>
      (st.size == ci.size && ((TypeOf(st.mode) == LNK && st.time >= ci.time) || (TypeOf(st.mode) in {8, 12} && st.time == ci.time)))
  {
    hide TypeOf, AndType;
    AndWithLink(TypeOf(st.mode));
  }

  lemma AndWithLink(t: nat)
    requires t in {0, 1, 2, 4, 6, 8, 10, 12}
    ensures AndType(LNK, t) == REG <==> t in {8, 12}
    ensures AndType(LNK, t) == LNK <==> t == LNK
  {
  }

  function StatOf(files: Files, path: Path): Stat {
    if path !in files then Stat(0, 0, 0)
    else Stat(ModeOf(files[path]) % WORD, |files[path].data| % WORD, files[path].mtime % WORD)
  }

  /** A file that is not there is never skipped. */
  lemma AbsentNotSkipped(files: Files, ci: CopyInfo)
    requires ci.dst !in files
    ensures !Unchanged(ci, StatOf(files, ci.dst))
  {
  }

  function ReadStat(s: seq<Byte>): (r: Option<Stat>)
    ensures r.Some? ==> |s| >= 16
  {
    if |s| < 16 || Unword(s[..4]) != STAT then None
    else Some(Stat(Unword(s[4..8]), Unword(s[8..12]), Unword(s[12..16])))
  }

  lemma StatIsRead(files: Files, path: Path, rest: seq<Byte>)
    ensures ReadStat(StatReply(files, path) + rest) == Some(StatOf(files, path)) && (StatReply(files, path) + rest)[16..] == rest
  {
    var st := StatOf(files, path);
    assert StatReply(files, path) == Word(STAT) + Word(st.mode) + Word(st.size) + Word(st.time);
    FourWords(STAT, st.mode, st.size, st.time, rest);
  }

  lemma FourWords(a: nat, b: nat, c: nat, d: nat, rest: seq<Byte>)
    requires a < WORD && b < WORD && c < WORD && d < WORD
    ensures var s := Word(a) + Word(b) + Word(c) + Word(d) + rest;
      Unword(s[..4]) == a && Unword(s[4..8]) == b && Unword(s[8..12]) == c && Unword(s[12..16]) == d && s[16..] == rest
  {
    hide Word, Unword;
    var s := Word(a) + Word(b) + Word(c) + Word(d) + rest;
    assert s[..4] == Word(a) && s[4..8] == Word(b) && s[8..12] == Word(c) && s[12..16] == Word(d);
    UnwordWord(a);
    UnwordWord(b);
    UnwordWord(c);
    UnwordWord(d);
  }

  function Mark(ci: CopyInfo, st: Stat): CopyInfo { if Unchanged(ci, st) then ci.(skip := true) else ci }

  /** Reading the answers in the order of the list: the list so far marked, what is left, and whether all were read. */
  function Marks(list: seq<CopyInfo>, s: seq<Byte>): (seq<CopyInfo>, seq<Byte>, bool)
    decreases list
  {
    if list == [] then (list, s, true)
    else match ReadStat(s)
      case None => (list, if |s| < 16 then s else s[16..], false)
      case Some(st) =>
        var r := Marks(list[1..], s[16..]);
        ([Mark(list[0], st)] + r.0, r.1, r.2)
  }

  function StatReplies(files: Files, list: seq<CopyInfo>): seq<Byte> {
    if list == [] then [] else StatReply(files, list[0].dst) + StatReplies(files, list[1..])
  }

  /** Each file compared with its own remote counterpart. */
  function Compared(files: Files, list: seq<CopyInfo>): (r: seq<CopyInfo>)
    ensures |r| == |list| && forall i | 0 <= i < |list| :: r[i] == Mark(list[i], StatOf(files, list[i].dst))
  {
    if list == [] then [] else [Mark(list[0], StatOf(files, list[0].dst))] + Compared(files, list[1..])
  }

  /** With all requests sent before any answer is read, the k-th answer is about the k-th file. */
  lemma {:induction false} AnswersInOrder(files: Files, list: seq<CopyInfo>, rest: seq<Byte>)
    ensures Marks(list, StatReplies(files, list) + rest) == (Compared(files, list), rest, true)
    decreases list
  {
    hide ReadStat, StatReply, Mark, StatOf;
    if list == [] {
      assert [] + rest == rest;
    } else {
      var tail := StatReplies(files, list[1..]) + rest;
      assert StatReplies(files, list) + rest == StatReply(files, list[0].dst) + tail;
      StatIsRead(files, list[0].dst, tail);
      AnswersInOrder(files, list[1..], rest);
    }
  }

  /** When the stream ends early, the files answered so far are marked, the others are not, and the comparison fails. */
  lemma {:induction false} MarksUpTo(files: Files, list: seq<CopyInfo>, k: nat, s: seq<Byte>)
    requires k < |list| && |s| < 16
    ensures Marks(list, StatReplies(files, list[..k]) + s) == (Compared(files, list[..k]) + list[k..], s, false)
    decreases list
  {
    hide ReadStat, StatReply, Mark, StatOf, Marks, Compared, StatReplies;
    if k == 0 {
      assert list[..0] == [] && [] + s == s && [] + list == list;
      ShortIsNone(s);
      NoneAnswered(files, list, s);
    } else {
      var ci, rest := list[0], list[1..];
      Ahead(list, k);
      FirstAnswered(files, ci, rest, rest[..k - 1], s);
      MarksUpTo(files, rest, k - 1, s);
      InfosAssoc([Mark(ci, StatOf(files, ci.dst))], Compared(files, rest[..k - 1]), rest[k - 1..]);
    }
  }

  lemma Ahead(list: seq<CopyInfo>, k: nat)
    requires 0 < k < |list|
    ensures list == [list[0]] + list[1..] && list[..k] == [list[0]] + list[1..][..k - 1] && list[k..] == list[1..][k - 1..]
  {
  }

  lemma InfosAssoc(a: seq<CopyInfo>, b: seq<CopyInfo>, c: seq<CopyInfo>)
    ensures a + b + c == a + (b + c)
  {
  }

  lemma NoneAnswered(files: Files, list: seq<CopyInfo>, s: seq<Byte>)
    requires list != [] && ReadStat(s) == None && |s| < 16
    ensures Marks(list, s) == (list, s, false) && StatReplies(files, []) == [] && Compared(files, []) == []
  {
    hide ReadStat;
  }

  lemma FirstAnswered(files: Files, ci: CopyInfo, list: seq<CopyInfo>, answered: seq<CopyInfo>, s: seq<Byte>)
    ensures var st := StatOf(files, ci.dst);
      && Marks([ci] + list, StatReplies(files, [ci] + answered) + s) ==
         Joined([Mark(ci, st)], Marks(list, StatReplies(files, answered) + s))
      && Compared(files, [ci] + answered) == [Mark(ci, st)] + Compared(files, answered)
  {
    hide ReadStat, StatReply, Mark, StatOf;
    var tail := StatReplies(files, answered) + s;
    assert ([ci] + answered)[1..] == answered && ([ci] + list)[1..] == list;
    assert StatReplies(files, [ci] + answered) + s == StatReply(files, ci.dst) + tail;
    StatIsRead(files, ci.dst, tail);
  }

  lemma ShortIsNone(s: seq<Byte>)
    requires |s| < 16
    ensures ReadStat(s) == None
  {
  }

  ghost function StatReqs(list: seq<CopyInfo>): (qs: seq<Req>)
    ensures |qs| == |list| && forall i | 0 <= i < |list| :: qs[i] == StatReq(list[i].dst)
  {
    seq(|list|, i requires 0 <= i < |list| => StatReq(list[i].dst))
  }

  /**
   * The comparison against a live session: whatever requests follow, the client marks every file by its own remote
   * state and finds the answers to the requests that follow next in the stream.
   */
  lemma CompareSession(files: Files, list: seq<CopyInfo>, later: seq<Req>, envs: nat -> Env, k: nat)
    requires (forall ci | ci in list :: 0 !in ci.dst && |ci.dst| <= 1024) && (forall q | q in later :: WellFormed(q))
    requires forall i :: Sane(envs(i))
    ensures forall q | q in StatReqs(list) + later :: WellFormed(q)
    ensures Marks(list, Answers(files, StatReqs(list) + later, envs, k).1) ==
      (Compared(files, list), Answers(files, later, envs, k + |list|).1, true)
  {
    StatsAnswered(files, list, later, envs, k);
    AnswersInOrder(files, list, Answers(files, later, envs, k + |list|).1);
  }

  lemma StatReqsWellFormed(list: seq<CopyInfo>)
    requires forall ci | ci in list :: 0 !in ci.dst && |ci.dst| <= 1024
    ensures forall q | q in StatReqs(list) :: WellFormed(q)
  {
    forall q | q in StatReqs(list) ensures WellFormed(q) {
      var i :| 0 <= i < |list| && q == StatReqs(list)[i];
      assert list[i] in list;
    }
  }

  lemma {:induction false} StatsAnswered(files: Files, list: seq<CopyInfo>, later: seq<Req>, envs: nat -> Env, k: nat)
    requires (forall ci | ci in list :: 0 !in ci.dst && |ci.dst| <= 1024) && (forall q | q in later :: WellFormed(q))
    requires forall i :: Sane(envs(i))
    ensures forall q | q in StatReqs(list) + later :: WellFormed(q)
    ensures Answers(files, StatReqs(list) + later, envs, k) ==
      (Answers(files, later, envs, k + |list|).0, StatReplies(files, list) + Answers(files, later, envs, k + |list|).1)
    decreases list
  {
    hide StatReply, WellFormed, Sane, Answers;
    StatReqsWellFormed(list);
    var last := Answers(files, later, envs, k + |list|);
    if list == [] {
      assert StatReqs(list) + later == later;
      assert [] + last.1 == last.1;
    } else {
      var tail := StatReqs(list[1..]) + later;
      assert StatReqs(list) + later == [StatReq(list[0].dst)] + tail;
      StatReqsWellFormed(list[1..]);
      StatsAnswered(files, list[1..], later, envs, k + 1);
      StatAnsweredFirst(files, list[0].dst, tail, envs, k);
      Assoc(StatReply(files, list[0].dst), StatReplies(files, list[1..]), last.1);
    }
  }

  lemma StatAnsweredFirst(files: Files, path: Path, later: seq<Req>, envs: nat -> Env, k: nat)
    requires WellFormed(StatReq(path)) && (forall q | q in later :: WellFormed(q)) && forall i :: Sane(envs(i))
    ensures Answers(files, [StatReq(path)] + later, envs, k) ==
      (Answers(files, later, envs, k + 1).0, StatReply(files, path) + Answers(files, later, envs, k + 1).1)
  {
    hide StatReply, WellFormed, Sane;
    assert ([StatReq(path)] + later)[1..] == later;
  }

  /** What CheckTimestamps sends is the encoding of the stat requests. */
  lemma {:induction false} RequestsAreEncoded(list: seq<CopyInfo>)
    requires forall ci | ci in list :: 0 !in ci.dst && |ci.dst| <= 1024
    ensures (forall q | q in StatReqs(list) :: WellFormed(q)) && Requests(list) == EncodeAll(StatReqs(list))
  {
    StatReqsWellFormed(list);
    hide Message, WellFormed;
    if list != [] {
      RequestsAreEncoded(list[1..]);
      assert StatReqs(list)[1..] == StatReqs(list[1..]);
    }
  }

  // ---- Pulling ---------------------------------------------------------------------------

  /** The end of a pull: its result, the local file afterwards, what is left of the stream. */
  datatype Pulled = Pulled(result: Result, local: Option<seq<Byte>>, rest: seq<Byte>)

  /** After a failure the local file is removed, and the pull still reports success unless the reason is cut off. */
  function RemoteError(big: bool, s: seq<Byte>): Pulled
    requires |s| >= 8
  {
    if HeadId(s) != FAIL then Pulled(Returns(0), None, s[8..])
    else
      var n := ReasonLength(HeadSize(s));
      if n < 0 then Pulled(ReadTooMuch(big, |s| - 8), None, s[8..])
      else if |s| - 8 < n then Pulled(Returns(-1), None, s[8..])
      else Pulled(Returns(0), None, s[8 + n..])
  }

  function PullData(big: bool, got: seq<Byte>, s: seq<Byte>): Pulled
    decreases |s|
  {
    if |s| < 8 then Pulled(Returns(-1), Some(got), s)
    else if HeadId(s) == DONE then Pulled(Returns(0), Some(got), s[8..])
    else if HeadId(s) != DATA then RemoteError(big, s)
    else
      var n := Signed(HeadSize(s));
      if n > SYNC_DATA_MAX then Pulled(Returns(-1), Some(got), s[8..])
      else if n < 0 then Pulled(ReadTooMuch(big, |s| - 8), Some(got), s[8..])
      else if |s| - 8 < n then Pulled(Returns(-1), Some(got), s[8..])
      else PullData(big, got + s[8..8 + n], s[8 + n..])
  }

  /** `local` is what the target held before; it is touched only once an answer has arrived. */
  function Pull(big: bool, local: Option<seq<Byte>>, s: seq<Byte>): Pulled {
    if |s| < 8 then Pulled(Returns(-1), local, s)
    else if HeadId(s) == DATA || HeadId(s) == DONE then PullData(big, [], s)
    else RemoteError(big, s)
  }

  /** A length word a pull meets, and how many bytes follow it. */
  datatype Met = Met(size: nat, following: nat)

  /** The length words of every data message up to one that does not fit, and of a failure. */
  function LengthsMet(s: seq<Byte>): seq<Met>
    decreases |s|
  {
    if |s| < 8 || (HeadId(s) != DATA && HeadId(s) != FAIL) then []
    else
      var n := HeadSize(s);
      [Met(n, |s| - 8)] + if HeadId(s) == DATA && n <= SYNC_DATA_MAX && n <= |s| - 8 then LengthsMet(s[8 + n..]) else []
  }

  /** The 64K buffer is not enough for what is asked for and comes. */
  predicate TooMuch(m: Met) { m.size >= 0x8000_0000 && m.following > SYNC_DATA_MAX }

  ghost predicate AnyTooMuch(ms: seq<Met>) { exists m :: m in ms && TooMuch(m) }

  lemma TooMuchFirst(m: Met, ms: seq<Met>)
    ensures AnyTooMuch([m] + ms) <==> TooMuch(m) || AnyTooMuch(ms)
  {
    assert forall x :: x in [m] + ms <==> x == m || x in ms;
  }

  lemma {:induction false} DataOverrunsIff(big: bool, got: seq<Byte>, s: seq<Byte>)
    ensures PullData(big, got, s).result == Overruns <==> big && AnyTooMuch(LengthsMet(s))
    decreases |s|
  {
    hide HeadId, HeadSize, AnyTooMuch;
    NoneTooMuch();
    if |s| >= 8 && (HeadId(s) == DATA || HeadId(s) == FAIL) {
      var n := HeadSize(s);
      if HeadId(s) == DATA && n <= SYNC_DATA_MAX && n <= |s| - 8 {
        TooMuchFirst(Met(n, |s| - 8), LengthsMet(s[8 + n..]));
        DataOverrunsIff(big, got + s[8..8 + n], s[8 + n..]);
      } else {
        TooMuchFirst(Met(n, |s| - 8), []);
      }
    }
  }

  lemma NoneTooMuch()
    ensures !AnyTooMuch([])
  {
  }

  /**
   * For any stream: a pull overruns its buffer exactly when read takes any count and a length word of 2^31 or more, with
   * more than 64K to follow, is met.
   */
  lemma PullOverrunsIff(big: bool, local: Option<seq<Byte>>, s: seq<Byte>)
    ensures Pull(big, local, s).result == Overruns <==> big && AnyTooMuch(LengthsMet(s))
  {
    hide HeadId, HeadSize, PullData;
    DataOverrunsIff(big, [], s);
    NoneTooMuch();
    OtherAnswer(big, s);
  }

  lemma CutOff(big: bool, got: seq<Byte>, s: seq<Byte>)
    ensures |s| < 8 ==> PullData(big, got, s) == Pulled(Returns(-1), Some(got), s)
  {
  }

  lemma OtherAnswer(big: bool, s: seq<Byte>)
    ensures |s| >= 8 && HeadId(s) != DATA && HeadId(s) != DONE ==> PullData(big, [], s) == RemoteError(big, s)
    ensures |s| < 8 ==> LengthsMet(s) == []
  {
  }

  /** The smallest such length, as data and as the length of a reason; without enough to follow the call just fails. */
  lemma HugeLengthOverruns(big: bool, local: Option<seq<Byte>>, rest: seq<Byte>)
    ensures var r := if big && |rest| > SYNC_DATA_MAX then Overruns else Returns(-1);
      && Pull(big, local, Header(DATA, 0x8000_0000) + rest).result == r
      && ReadStatus(big, Header(FAIL, 0x8000_0000) + rest).0 == r
  {
    hide HeadId, HeadSize;
    HeaderReads(DATA, 0x8000_0000, rest);
    HeaderReads(FAIL, 0x8000_0000, rest);
  }

  /** A pull whose stream ends: what has arrived stays in the local file, and the pull fails. */
  lemma {:induction false} PullCutOff(big: bool, got: seq<Byte>, chunks: seq<seq<Byte>>, s: seq<Byte>)
    requires Small(chunks) && (|s| < 8 || (HeadId(s) == DATA && |s| - 8 < HeadSize(s) < 0x8000_0000))
    ensures PullData(big, got, DataMessages(chunks) + s) == Pulled(Returns(-1), Some(got + Flatten(chunks)), if |s| < 8 then s else s[8..])
    decreases chunks
  {
    hide Message, HeadId, HeadSize, PullData;
    if chunks == [] {
      assert DataMessages(chunks) + s == s && got + Flatten(chunks) == got;
      CutInData(big, got, s);
      CutOff(big, got, s);
    } else {
      var c, tail := chunks[0], DataMessages(chunks[1..]) + s;
      assert c in chunks && DataMessages(chunks) + s == Message(DATA, c) + tail;
      PullChunk(big, got, c, tail);
      PullCutOff(big, got + c, chunks[1..], s);
      assert got + c + Flatten(chunks[1..]) == got + Flatten(chunks);
    }
  }

  lemma CutInData(big: bool, got: seq<Byte>, s: seq<Byte>)
    ensures |s| >= 8 && HeadId(s) == DATA && |s| - 8 < HeadSize(s) < 0x8000_0000 ==>
      PullData(big, got, s) == Pulled(Returns(-1), Some(got), s[8..])
  {
    hide HeadId, HeadSize;
  }

  lemma PullChunk(big: bool, got: seq<Byte>, c: seq<Byte>, rest: seq<Byte>)
    requires |c| <= SYNC_DATA_MAX
    ensures PullData(big, got, Message(DATA, c) + rest) == PullData(big, got + c, rest)
  {
    hide Message, HeadId, HeadSize;
    MessageReads(DATA, c, rest);
  }

  /** A message of an unknown kind removes the local file and is reported as success; one that is too long is refused. */
  lemma PullStrange(big: bool, local: Option<seq<Byte>>, got: seq<Byte>, id: nat, n: nat, rest: seq<Byte>)
    requires id < WORD && n < WORD
    ensures id !in {DATA, DONE, FAIL} ==> Pull(big, local, Header(id, n) + rest) == Pulled(Returns(0), None, rest)
    ensures id !in {DATA, DONE, FAIL} ==> PullData(big, got, Header(id, n) + rest) == Pulled(Returns(0), None, rest)
    ensures 65536 < n < 0x8000_0000 ==> PullData(big, got, Header(DATA, n) + rest) == Pulled(Returns(-1), Some(got), rest)
  {
    hide HeadId, HeadSize, Header;
    HeaderReads(id, n, rest);
    HeaderReads(DATA, n, rest);
  }

  ghost predicate Unbroken(pieces: seq<Read>) { forall r | r in pieces :: !r.Broke? }

  lemma {:induction false} PullsPieces(big: bool, got: seq<Byte>, pieces: seq<Read>, e: Env, rest: seq<Byte>)
    requires Sane(e) && |e.reason| <= 256 && ReadSizes(pieces)
    ensures PullData(big, got, RecvData(pieces, e) + rest) ==
      (if Unbroken(pieces) then Pulled(Returns(0), Some(got + Flatten(Pieces(pieces))), rest) else Pulled(Returns(0), None, rest))
    decreases pieces
  {
    hide Message, Header, HeadId, HeadSize;
    if pieces == [] {
      HeaderReads(DONE, 0, rest);
      assert got + Flatten(Pieces(pieces)) == got;
    } else {
      var tail := pieces[1..];
      assert Unbroken(pieces) <==> !pieces[0].Broke? && Unbroken(tail);
      FlattenFirst(pieces);
      match pieces[0]
      case Got(c) =>
        assert pieces[0] in pieces;
        assert RecvData(pieces, e) + rest == Message(DATA, c) + (RecvData(tail, e) + rest);
        MessageReads(DATA, c, RecvData(tail, e) + rest);
        PullsPieces(big, got + c, tail, e, rest);
        assert got + c + Flatten(Pieces(tail)) == got + (c + Flatten(Pieces(tail)));
      case Again =>
        PullsPieces(big, got, tail, e, rest);
        assert [] + Flatten(Pieces(tail)) == Flatten(Pieces(tail));
      case Broke =>
        MessageReads(FAIL, e.reason, rest);
    }
  }

  /**
   * A pull end to end: a file that can be opened and read arrives whole; otherwise the local file is gone and the pull
   * reports success all the same. In both cases the stream is left at the next answer.
   */
  lemma PullEndToEnd(big: bool, files: Files, path: Path, e: Env, local: Option<seq<Byte>>, rest: seq<Byte>)
    requires Sane(e) && |e.reason| <= 256
    ensures Pull(big, local, RecvReply(files, path, e) + rest) ==
      (if path in files && e.open && Unbroken(e.pieces) then Pulled(Returns(0), Some(Flatten(Pieces(e.pieces))), rest) else Pulled(Returns(0), None, rest))
  {
    hide Message, Header, HeadId, HeadSize;
    if path in files && e.open {
      PullsPieces(big, [], e.pieces, e, rest);
      assert [] + Flatten(Pieces(e.pieces)) == Flatten(Pieces(e.pieces));
      FirstHeader(big, e.pieces, e, rest);
    } else {
      MessageReads(FAIL, e.reason, rest);
    }
  }

  lemma {:induction false} FirstHeader(big: bool, pieces: seq<Read>, e: Env, rest: seq<Byte>)
    requires Sane(e) && ReadSizes(pieces)
    ensures var s := RecvData(pieces, e) + rest;
      |s| >= 8 && (HeadId(s) == DATA || HeadId(s) == DONE || (HeadId(s) == FAIL && PullData(big, [], s) == RemoteError(big, s)))
    decreases pieces
  {
    hide Message, Header, HeadId, HeadSize;
    if pieces == [] {
      HeaderReads(DONE, 0, rest);
    } else {
      match pieces[0]
      case Got(c) =>
        assert pieces[0] in pieces;
        assert RecvData(pieces, e) + rest == Message(DATA, c) + (RecvData(pieces[1..], e) + rest);
        MessageReads(DATA, c, RecvData(pieces[1..], e) + rest);
      case Again => FirstHeader(big, pieces[1..], e, rest);
      case Broke => MessageReads(FAIL, e.reason, rest);
    }
  }

  // ---- The client ------------------------------------------------------------------------

  lemma CutsStep(content: seq<Byte>, total: nat)
    requires total < |content|
    ensures var count := if |content| - total > SYNC_DATA_MAX then SYNC_DATA_MAX else |content| - total;
      Cuts(content[total..]) == [content[total..total + count]] + Cuts(content[total + count..])
  {
    var count := if |content| - total > SYNC_DATA_MAX then SYNC_DATA_MAX else |content| - total;
    var rest := content[total..];
    assert rest[..count] == content[total..total + count] && rest[count..] == content[total + count..];
  }

  class Client {
    /** Whether read takes any count, and whether the host was built with symbolic links. */
    const bigReads: bool
    const symlinks: bool
    var output: seq<Byte>
    var input: seq<Byte>
    var local: Option<seq<Byte>>

    method ReadX(n: nat) returns (ok: bool, b: seq<Byte>)
      modifies `input
      ensures ok <==> |old(input)| >= n
      ensures ok ==> b == old(input)[..n] && input == old(input)[n..]
      ensures !ok ==> input == old(input)
    {
      ok, b := |input| >= n, [];
      if ok {
        b, input := input[..n], input[n..];
      }
    }

    method WriteDataBuffer(content: seq<Byte>)
      modifies `output
      ensures output == old(output) + DataMessages(Cuts(content))
    {
      hide Message, Cuts, DataMessages;
      var total := 0;
      ghost var goal := output + DataMessages(Cuts(content));
      assert content[0..] == content;
      while total < |content|
        invariant 0 <= total <= |content|
        invariant output + DataMessages(Cuts(content[total..])) == goal
      {
        var count := |content| - total;
        if count > SYNC_DATA_MAX {
          count := SYNC_DATA_MAX;
        }
        var c := content[total..total + count];
        SendCut(output, content, total, count);
        output := output + Message(DATA, c);
        total := total + count;
      }
      NoCuts(content[total..]);
      NoData();
      assert output + [] == output;
    }

    method WriteDataFile(open: bool, pieces: seq<Read>) returns (err: int)
      requires ReadSizes(pieces)
      modifies `output
      ensures forall c | c in UntilBroken(pieces) :: |c| < WORD
      ensures output == old(output) + DataMessages(if open then UntilBroken(pieces) else [])
      ensures err == if open then 0 else -1
    {
      hide Message, DataMessages, UntilBroken;
      SmallPieces(pieces);
      NoData();
      assert output + [] == output;
      if !open { return -1; }
      ghost var goal := output + DataMessages(UntilBroken(pieces));
      assert pieces[0..] == pieces;
      for i := 0 to |pieces|
        invariant (forall c | c in UntilBroken(pieces[i..]) :: |c| < WORD) && output + DataMessages(UntilBroken(pieces[i..])) == goal
      {
        assert pieces[i] in pieces;
        NextPiece(pieces, i);
        match pieces[i]
        case Again =>
        case Broke =>
          assert output + [] == output;
          return 0;
        case Got(c) =>
          SendNext(output, c, UntilBroken(pieces[i + 1..]));
          output := output + Message(DATA, c);
      }
      NoPieces(pieces[|pieces|..]);
      assert output + [] == output;
      return 0;
    }

    /** The result of writing the data is not looked at: whatever was read is sent, and DONE follows. */
    method SyncSend(rpath: Path, mode: nat, mtime: nat, src: Source) returns (r: Result)
      requires GoodSource(src) && mtime < WORD && mode < WORD
      modifies this
      ensures |rpath| > 1024 ==> r == Returns(-1) && output == old(output) && input == old(input)
      ensures |rpath| <= 1024 ==> |SendName(rpath, mode)| < WORD && Small(Sent(src))
      ensures |rpath| <= 1024 && (src.Buffer? || TypeOf(mode) == REG) ==>
        output == old(output) + PushBytes(rpath, mode, src, mtime) && (r, input) == ReadStatus(bigReads, old(input))
      ensures |rpath| <= 1024 && src.Local? && TypeOf(mode) == LNK && symlinks ==>
        && output == old(output) + Message(SEND, SendName(rpath, mode)) + LinkData(src.target, mtime)
        && (r, input) == ReadStatus(bigReads, old(input))
      ensures |rpath| <= 1024 && src.Local? && TypeOf(mode) != REG && !(TypeOf(mode) == LNK && symlinks) ==>
        r == Returns(-1) && output == old(output) + Message(SEND, SendName(rpath, mode)) && input == old(input)
    {
      hide Message, Header, TypeOf, DataMessages, SendName, ReadStatus, Small;
      if |rpath| > 1024 { return Returns(-1); }
      ShortNumber(rpath, mode);
      SentIsSmall(src);
      SmallFits(Sent(src));
      var request := Message(SEND, SendName(rpath, mode));
      output := output + request;
      if src.Buffer? {
        WriteDataBuffer(src.content);
      } else if TypeOf(mode) == REG {
        var err := WriteDataFile(src.open, src.pieces);
      } else if symlinks && TypeOf(mode) == LNK {
        var err := WriteDataLink(src.target);
      } else {
        return Returns(-1);
      }
      output := output + Header(DONE, mtime);
      Regroup(old(output), request, DataMessages(Sent(src)), Header(DONE, mtime));
      if src.Local? && TypeOf(mode) == LNK {
        LinkRegroup(old(output), request, src.target, mtime);
      }
      r := ReadReply();
    }

    /** A link is one data message with its target and a NUL. */
    method WriteDataLink(target: Option<seq<Byte>>) returns (err: int)
      requires GoodTarget(target)
      modifies `output
      ensures output == old(output) + if target.Some? then Message(DATA, target.value + [0]) else []
      ensures err == if target.Some? then 0 else -1
    {
      if target == None {
        assert output + [] == output;
        return -1;
      }
      output := output + Message(DATA, target.value + [0]);
      return 0;
    }

    method ReadReply() returns (r: Result)
      modifies `input
      ensures (r, input) == ReadStatus(bigReads, old(input))
    {
      hide HeadId, HeadSize;
      ghost var s := input;
      var ok, head := ReadX(8);
      if !ok { return Returns(-1); }
      HeadOfPrefix(s);
      if HeadId(head) != OKAY {
        if HeadId(head) == FAIL {
          var len := Signed(HeadSize(head));
          if len > 256 {
            len := 256;
          }
          if len < 0 { return ReadTooMuch(bigReads, |input|); }
          var text;
          ok, text := ReadX(len);
          assert ok ==> input == s[8 + len..];
        }
        return Returns(-1);
      }
      return Returns(0);
    }

    method FinishReadtime() returns (st: Option<Stat>)
      modifies `input
      ensures st == ReadStat(old(input)) && input == if |old(input)| < 16 then old(input) else old(input)[16..]
    {
      var ok, b := ReadX(16);
      if !ok || Unword(b[..4]) != STAT { return None; }
      st := Some(Stat(Unword(b[4..8]), Unword(b[8..12]), Unword(b[12..16])));
    }

    /** All requests first, then all answers; the flags are set in place. */
    method CheckTimestamps(infos: array<CopyInfo>) returns (rc: int)
      requires forall i | 0 <= i < infos.Length :: |infos[i].dst| < WORD
      modifies this, infos
      ensures output == old(output) + Requests(old(infos[..]))
      ensures (infos[..], input, rc == 0) == Marks(old(infos[..]), old(input))
    {
      hide ReadStat, Mark, Requests, Marks;
      SendRequests(infos);
      ghost var list, goal := infos[..], Marks(infos[..], input);
      assert list[0..] == list && [] + goal.0 == goal.0;
      for k := 0 to infos.Length
        invariant infos[k..] == list[k..] && output == old(output) + Requests(list)
        invariant goal == Joined(infos[..k], Marks(list[k..], input))
      {
        MarksStep(list, k, input);
        ghost var before, s := infos[..k], input;
        assert infos[k] == infos[k..][0];
        var st := FinishReadtime();
        if st == None {
          assert infos[..] == before + list[k..];
          return 1;
        }
        infos[k] := Mark(infos[k], st.value);
        assert infos[..k + 1] == before + [Mark(list[k], st.value)];
        JoinedStep(before, Mark(list[k], st.value), Marks(list[k + 1..], input));
      }
      NoMarks(list[|list|..], input);
      assert infos[..infos.Length] + [] == infos[..];
      return 0;
    }

    /** The end of a pull after anything but data: the local file goes, a reason is read and shown. */
    method HandleRemoteError(head: seq<Byte>, ghost s: seq<Byte>) returns (r: Result)
      requires |s| >= 8 && head == s[..8] && input == s[8..]
      modifies `input, `local
      ensures Pulled(r, local, input) == RemoteError(bigReads, s)
    {
      hide HeadId, HeadSize;
      HeadOfPrefix(s);
      local := None;
      if HeadId(head) == FAIL {
        var len := Signed(HeadSize(head));
        if len > 256 {
          len := 256;
        }
        if len < 0 { return ReadTooMuch(bigReads, |input|); }
        var ok, text := ReadX(len);
        if !ok { return Returns(-1); }
        assert input == s[8 + len..];
      }
      return Returns(0);
    }

    method SyncRecv(rpath: Path) returns (r: Result)
      modifies this
      ensures |rpath| > 1024 ==> r == Returns(-1) && output == old(output) && input == old(input) && local == old(local)
      ensures |rpath| <= 1024 ==> output == old(output) + Message(RECV, rpath)
      ensures |rpath| <= 1024 ==> Pulled(r, local, input) == Pull(bigReads, old(local), old(input))
    {
      hide HeadId, HeadSize, Message, RemoteError, PullData;
      if |rpath| > 1024 { return Returns(-1); }
      output := output + Message(RECV, rpath);
      ghost var s := input;
      var ok, head := ReadX(8);
      if !ok { return Returns(-1); }
      HeadOfPrefix(s);
      if HeadId(head) != DATA && HeadId(head) != DONE {
        r := HandleRemoteError(head, s);
        return;
      }
      local := Some([]);
      ghost var goal := PullData(bigReads, [], s);
      while true
        invariant |s| >= 8 && head == s[..8] && input == s[8..]
        invariant local.Some? && goal == PullData(bigReads, local.value, s)
        invariant output == old(output) + Message(RECV, rpath)
        decreases |input|
      {
        var done;
        done, r := ReceiveOne(head, s);
        if done {
          return;
        }
        s := input;
        CutOff(bigReads, local.value, s);
        ok, head := ReadX(8);
        if !ok { return Returns(-1); }
      }
    }

    /** One message of a pull whose header has been read; data goes to the local file. */
    method ReceiveOne(head: seq<Byte>, ghost s: seq<Byte>) returns (done: bool, r: Result)
      requires |s| >= 8 && head == s[..8] && input == s[8..] && local.Some?
      modifies `input, `local
      ensures done ==> Pulled(r, local, input) == PullData(bigReads, old(local).value, s)
      ensures !done ==> local.Some? && |input| < |s| - 7
      ensures !done ==> PullData(bigReads, local.value, input) == PullData(bigReads, old(local).value, s)
    {
      hide HeadId, HeadSize, RemoteError;
      done := true;
      HeadOfPrefix(s);
      var id, len := HeadId(head), Signed(HeadSize(head));
      if id == DONE { return true, Returns(0); }
      if id != DATA {
        r := HandleRemoteError(head, s);
        return;
      }
      if len > SYNC_DATA_MAX { return true, Returns(-1); }
      if len < 0 { return true, ReadTooMuch(bigReads, |input|); }
      var ok, c := ReadX(len);
      if !ok { return true, Returns(-1); }
      assert c == s[8..8 + len] && input == s[8 + len..];
      local := Some(local.value + c);
      return false, Returns(0);
    }

    method SendRequests(infos: array<CopyInfo>)
      requires forall i | 0 <= i < infos.Length :: |infos[i].dst| < WORD
      modifies `output
      ensures output == old(output) + Requests(infos[..])
    {
      hide Message, Requests;
      ghost var list, goal := infos[..], output + Requests(infos[..]);
      assert list[0..] == list;
      for k := 0 to infos.Length
        invariant output + Requests(list[k..]) == goal
      {
        RequestsStep(list, k);
        Assoc(output, Message(STAT, list[k].dst), Requests(list[k + 1..]));
        output := output + Message(STAT, infos[k].dst);
      }
      NoRequests(list[|list|..]);
      assert output + [] == output;
    }
  }

  lemma Assoc(a: seq<Byte>, b: seq<Byte>, c: seq<Byte>)
    ensures a + b + c == a + (b + c)
  {
  }

  lemma LinkRegroup(a: seq<Byte>, b: seq<Byte>, target: Option<seq<Byte>>, time: nat)
    requires GoodTarget(target) && time < WORD
    ensures a + b + (if target.Some? then Message(DATA, target.value + [0]) else []) + Header(DONE, time) ==
      a + b + LinkData(target, time)
  {
    hide Message, Header;
  }

  lemma Regroup(a: seq<Byte>, b: seq<Byte>, c: seq<Byte>, d: seq<Byte>)
    ensures a + b + c + d == a + (b + (c + d))
  {
  }

  /** One data message ahead of the others. */
  lemma SendNext(output: seq<Byte>, c: seq<Byte>, rest: seq<seq<Byte>>)
    requires |c| < WORD && forall b | b in rest :: |b| < WORD
    ensures output + DataMessages([c] + rest) == output + Message(DATA, c) + DataMessages(rest)
  {
    hide Message;
    assert ([c] + rest)[1..] == rest;
    Assoc(output, Message(DATA, c), DataMessages(rest));
  }

  /** The next piece of a buffer ahead of the rest. */
  lemma SendCut(output: seq<Byte>, content: seq<Byte>, total: nat, count: nat)
    requires total < |content| && count == if |content| - total > SYNC_DATA_MAX then SYNC_DATA_MAX else |content| - total
    ensures output + DataMessages(Cuts(content[total..])) ==
      output + Message(DATA, content[total..total + count]) + DataMessages(Cuts(content[total + count..]))
  {
    hide Message, Cuts, DataMessages;
    CutsStep(content, total);
    SendNext(output, content[total..total + count], Cuts(content[total + count..]));
  }

  lemma NoData()
    ensures DataMessages([]) == []
  {
  }

  lemma SmallFits(chunks: seq<seq<Byte>>)
    requires Small(chunks)
    ensures forall c | c in chunks :: |c| < WORD
  {
  }

  lemma NextPiece(pieces: seq<Read>, i: nat)
    requires i < |pieces|
    ensures var rest := UntilBroken(pieces[i + 1..]);
      UntilBroken(pieces[i..]) == match pieces[i] case Got(c) => [c] + rest case Again => rest case Broke => []
  {
    assert pieces[i..][1..] == pieces[i + 1..];
  }

  lemma NoPieces(pieces: seq<Read>)
    requires pieces == []
    ensures UntilBroken(pieces) == []
  {
  }

  function Joined(before: seq<CopyInfo>, r: (seq<CopyInfo>, seq<Byte>, bool)): (seq<CopyInfo>, seq<Byte>, bool) {
    (before + r.0, r.1, r.2)
  }

  lemma JoinedStep(before: seq<CopyInfo>, ci: CopyInfo, r: (seq<CopyInfo>, seq<Byte>, bool))
    ensures Joined(before, Joined([ci], r)) == Joined(before + [ci], r)
  {
    assert before + ([ci] + r.0) == before + [ci] + r.0;
  }

  lemma MarksStep(list: seq<CopyInfo>, k: nat, s: seq<Byte>)
    requires k < |list|
    ensures Marks(list[k..], s) == match ReadStat(s)
        case None => (list[k..], if |s| < 16 then s else s[16..], false)
        case Some(st) => Joined([Mark(list[k], st)], Marks(list[k + 1..], s[16..]))
  {
    assert list[k..][1..] == list[k + 1..];
  }

  lemma NoMarks(list: seq<CopyInfo>, s: seq<Byte>)
    requires list == []
    ensures Marks(list, s) == (list, s, true)
  {
  }

  lemma RequestsStep(list: seq<CopyInfo>, k: nat)
    requires k < |list| && forall ci | ci in list :: |ci.dst| < WORD
    ensures Requests(list[k..]) == Message(STAT, list[k].dst) + Requests(list[k + 1..])
  {
    assert list[k..][1..] == list[k + 1..];
  }

  lemma NoRequests(list: seq<CopyInfo>)
    requires list == []
    ensures Requests(list) == []
  {
  }

  lemma NoCuts(content: seq<Byte>)
    requires content == []
    ensures Cuts(content) == []
  {
  }

  /** A printed 32-bit number is short. */
  lemma ShortNumber(path: Path, mode: nat)
    requires |path| <= 1024 && mode < WORD
    ensures |SendName(path, mode)| < WORD
  {
    assert mode < Power(10);
    DecimalLength(mode, 10);
  }

  function Power(k: nat): nat { if k == 0 then 1 else 10 * Power(k - 1) }

  lemma {:induction false} DecimalLength(n: nat, k: nat)
    requires k >= 1 && n < Power(k)
    ensures |Decimal(n)| <= k
  {
    if n >= 10 { DecimalLength(n / 10, k - 1); }
  }

  /** The stat requests for a list, in order. */
  function Requests(list: seq<CopyInfo>): seq<Byte>
    requires forall ci | ci in list :: |ci.dst| < WORD
  {
    if list == [] then [] else Message(STAT, list[0].dst) + Requests(list[1..])
  }
}
