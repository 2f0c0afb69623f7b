/** The bytes of adb's file sync protocol: little-endian words, headers, data bodies, decimal numbers. */
module SyncWire {

  type Byte = x: int | 0 <= x < 256

  const WORD: int := 0x1_0000_0000
  const SYNC_DATA_MAX: nat := 65536

  // Four letters each, first letter in the lowest byte.
  const STAT: nat := 0x5441_5453
  const LIST: nat := 0x5453_494c
  const SEND: nat := 0x444e_4553
  const RECV: nat := 0x5643_4552
  const DONE: nat := 0x454e_4f44
  const DATA: nat := 0x4154_4144
  const OKAY: nat := 0x5941_4b4f
  const FAIL: nat := 0x4c49_4146
  const QUIT: nat := 0x5449_5551

  function Word(n: nat): (w: seq<Byte>)
    requires n < WORD
    ensures |w| == 4
  {
    [n % 256, n / 256 % 256, n / 65536 % 256, n / 16777216]
  }

  function Unword(b: seq<Byte>): (n: nat)
    requires |b| == 4
    ensures n < WORD
  {
    (b[0] as int) + 256 * (b[1] as int) + 65536 * (b[2] as int) + 16777216 * (b[3] as int)
  }

  /** A word read into a signed int. */
  function Signed(n: nat): int
    requires n < WORD
  {
    if n < 0x8000_0000 then n else n - WORD
  }

  lemma UnwordWord(n: nat)
    requires n < WORD
    ensures Unword(Word(n)) == n
  {
    var a, b := n / 256, n / 65536;
    assert n == 256 * a + n % 256;
    assert a == 256 * (a / 256) + a % 256 && a / 256 == b;
    assert b == 256 * (b / 256) + b % 256 && b / 256 == n / 16777216;
  }

  /** The two-word record that starts every request and every message. */
  function Header(id: nat, size: nat): (h: seq<Byte>)
    requires id < WORD && size < WORD
    ensures |h| == 8
  {
    Word(id) + Word(size)
  }

  function HeadId(s: seq<Byte>): nat
    requires |s| >= 8
  {
    Unword(s[..4])
  }

  function HeadSize(s: seq<Byte>): (n: nat)
    requires |s| >= 8
    ensures n < WORD
  {
    Unword(s[4..8])
  }

  lemma HeaderReads(id: nat, size: nat, rest: seq<Byte>)
    requires id < WORD && size < WORD
    ensures var s := Header(id, size) + rest; HeadId(s) == id && HeadSize(s) == size && s[8..] == rest
  {
    hide Word, Unword;
    var s := Header(id, size) + rest;
    assert s[..4] == Word(id) && s[4..8] == Word(size);
    UnwordWord(id);
    UnwordWord(size);
  }

  /** A header with its payload. */
  function Message(id: nat, payload: seq<Byte>): seq<Byte>
    requires id < WORD && |payload| < WORD
  {
    Header(id, |payload|) + payload
  }

  lemma MessageReads(id: nat, payload: seq<Byte>, rest: seq<Byte>)
    requires id < WORD && |payload| < WORD
    ensures var s := Message(id, payload) + rest; var n := |payload|;
      |s| >= 8 + n && HeadId(s) == id && HeadSize(s) == n && s[8..8 + n] == payload && s[8 + n..] == rest
  {
    hide Header, HeadId, HeadSize;
    var s, n := Message(id, payload) + rest, |payload|;
    assert s == Header(id, n) + (payload + rest);
    HeaderReads(id, n, payload + rest);
    assert s[8..8 + n] == s[8..][..n] && s[8 + n..] == s[8..][n..];
  }

  // ---- Bodies: data messages, then DONE with a number -------------------------------------

  function Flatten(chunks: seq<seq<Byte>>): seq<Byte> {
    if chunks == [] then [] else chunks[0] + Flatten(chunks[1..])
  }

  ghost predicate Small(chunks: seq<seq<Byte>>) { forall c | c in chunks :: |c| <= SYNC_DATA_MAX }

  function DataMessages(chunks: seq<seq<Byte>>): seq<Byte>
    requires forall c | c in chunks :: |c| < WORD
  {
    if chunks == [] then [] else Message(DATA, chunks[0]) + DataMessages(chunks[1..])
  }

  function Body(chunks: seq<seq<Byte>>, number: nat): seq<Byte>
    requires (forall c | c in chunks :: |c| < WORD) && number < WORD
  {
    DataMessages(chunks) + Header(DONE, number)
  }

  lemma BodyCons(chunks: seq<seq<Byte>>, number: nat, rest: seq<Byte>)
    requires chunks != [] && (forall c | c in chunks :: |c| < WORD) && number < WORD
    ensures Body(chunks, number) + rest == Message(DATA, chunks[0]) + (Body(chunks[1..], number) + rest)
  {
  }

  // ---- Strings ---------------------------------------------------------------------------

  const COMMA: Byte := 44
  const ZERO: Byte := 48

  /** A C string: up to the first NUL. */
  function CString(s: seq<Byte>): seq<Byte> {
    if s == [] || s[0] == 0 then [] else [s[0]] + CString(s[1..])
  }

  lemma {:induction false} CStringWhole(s: seq<Byte>)
    requires 0 !in s
    ensures CString(s) == s
  {
    if s != [] { CStringWhole(s[1..]); }
  }

  /** The position of the last comma, or -1. */
  function LastComma(s: seq<Byte>): (k: int)
    ensures -1 <= k < |s|
    ensures k >= 0 ==> s[k] == COMMA && forall j | k < j < |s| :: s[j] != COMMA
    ensures k < 0 ==> COMMA !in s
  {
    if s == [] then -1
    else if s[|s| - 1] == COMMA then |s| - 1
    else assert s == s[..|s| - 1] + [s[|s| - 1]]; LastComma(s[..|s| - 1])
  }

  function Decimal(n: nat): seq<Byte>
  {
    if n < 10 then [ZERO + n] else Decimal(n / 10) + [ZERO + n % 10]
  }

  predicate IsDigit(b: Byte) { ZERO <= b < ZERO + 10 }

  /** The leading digits below `base`, read from the left; strtoul without prefix, sign or space. */
  function Digits(s: seq<Byte>, base: nat, acc: nat): nat
    decreases |s|
  {
    if s == [] || !(ZERO <= s[0] < ZERO + base) then acc else Digits(s[1..], base, acc * base + (s[0] - ZERO))
  }

  /** strtoul with base 0, for numbers without sign, space or a 0x prefix: a leading 0 means octal. */
  function ToNumber(s: seq<Byte>): nat { Digits(s, if s != [] && s[0] == ZERO then 8 else 10, 0) }

  lemma {:induction false} DecimalDigits(n: nat)
    ensures Decimal(n) != [] && forall b | b in Decimal(n) :: IsDigit(b)
    ensures n > 0 ==> Decimal(n)[0] != ZERO
    ensures n == 0 ==> Decimal(n) == [ZERO]
  {
    if n >= 10 { DecimalDigits(n / 10); }
  }

  lemma {:induction false} DigitsAppend(s: seq<Byte>, d: Byte, acc: nat)
    requires IsDigit(d) && forall b | b in s :: IsDigit(b)
    ensures Digits(s + [d], 10, acc) == Digits(s, 10, acc) * 10 + (d - ZERO)
    decreases |s|
  {
    if s == [] {
      assert s + [d] == [d] && [d][1..] == [];
    } else {
      assert (s + [d])[1..] == s[1..] + [d];
      assert s[0] in s;
      DigitsAppend(s[1..], d, acc * 10 + (s[0] - ZERO));
    }
  }

  lemma {:induction false} DecimalValue(n: nat)
    ensures Digits(Decimal(n), 10, 0) == n
  {
    if n >= 10 {
      DecimalDigits(n / 10);
      DecimalValue(n / 10);
      DigitsAppend(Decimal(n / 10), ZERO + n % 10, 0);
    } else {
      assert [ZERO + n][1..] == [];
    }
  }

  /** Reading back what was printed. */
  lemma NumberRoundTrip(n: nat)
    ensures ToNumber(Decimal(n)) == n
  {
    DecimalDigits(n);
    if n == 0 {
      assert Decimal(n)[1..] == [] && Digits(Decimal(n), 8, 0) == Digits([], 8, 0);
    } else {
      DecimalValue(n);
    }
  }

  /** The name of a send request: path, comma, mode. */
  function SendName(path: seq<Byte>, mode: nat): seq<Byte> { path + [COMMA] + Decimal(mode) }

  /** Splitting at the last comma recovers path and mode, whatever commas the path holds. */
  lemma SplitRoundTrip(path: seq<Byte>, mode: nat)
    ensures var s := SendName(path, mode); var k := LastComma(s);
      k == |path| && s[..k] == path && s[k + 1..] == Decimal(mode) && ToNumber(s[k + 1..]) == mode
  {
    var s, k := SendName(path, mode), LastComma(SendName(path, mode));
    assert s[|path|] == COMMA && s[|path| + 1..] == Decimal(mode) && s[..|path|] == path;
    DecimalDigits(mode);
    NumberRoundTrip(mode);
    forall j | |path| < j < |s| ensures s[j] != COMMA {
      assert s[j] == Decimal(mode)[j - |path| - 1] && IsDigit(s[j]);
    }
  }
}
