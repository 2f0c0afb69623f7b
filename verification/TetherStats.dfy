/**
 * Tethering statistics: NatController appends a pair of counting rules per interface pair,
 * BandwidthController reads the chain's listing back and pairs the rows up again.
 */
module TetherStats {
  import opened Util

  // ---- The counter chain -----------------------------------------------------------------

  /** One rule of natctrl_tether_counters: traffic from `from` to `to`. */
  datatype Counter = Counter(from: string, to: string)

  /** The quota2 name of a rule; its file under /proc/net/xt_quota shows that the rule exists. */
  function NameOf(c: Counter): string { c.from + "_" + c.to }

  predicate Named(cs: seq<Counter>, name: string) { exists c | c in cs :: NameOf(c) == name }

  /** setTetherCountingRules when both commands succeed. */
  function CountPair(cs: seq<Counter>, intIface: string, extIface: string): seq<Counter> {
    if Named(cs, NameOf(Counter(intIface, extIface))) then cs else
    var cs1 := cs + [Counter(intIface, extIface)];
    if Named(cs1, NameOf(Counter(extIface, intIface))) then cs1 else cs1 + [Counter(extIface, intIface)]
  }

  /** An interface pair handed to enableNat: internal, external. */
  datatype Pair = Pair(intIface: string, extIface: string)

  function Reversed(p: Pair): Pair { Pair(p.extIface, p.intIface) }

  function Forth(p: Pair): Counter { Counter(p.intIface, p.extIface) }

  function Back(p: Pair): Counter { Counter(p.extIface, p.intIface) }

  function CountAll(cs: seq<Counter>, history: seq<Pair>): seq<Counter>
    decreases history
  {
    if history == [] then cs
    else CountAll(CountPair(cs, history[0].intIface, history[0].extIface), history[1..])
  }

  /** The pairs in the order they were first enabled, in whichever direction. */
  function FirstPairs(ps: seq<Pair>, history: seq<Pair>): seq<Pair>
    decreases history
  {
    if history == [] then ps
    else FirstPairs(if Known(ps, history[0]) then ps else ps + [history[0]], history[1..])
  }

  predicate Known(ps: seq<Pair>, p: Pair) { p in ps || Reversed(p) in ps }

  /** Adjacent rules, internal to external first. */
  function Rules(ps: seq<Pair>): (cs: seq<Counter>)
    ensures |cs| == 2 * |ps|
  {
    if ps == [] then [] else Rules(ps[..|ps| - 1]) + [Forth(ps[|ps| - 1]), Back(ps[|ps| - 1])]
  }

  ghost predicate IsCounterOf(c: Counter, ps: seq<Pair>) { exists p :: p in ps && (c == Forth(p) || c == Back(p)) }

  /** No two different rules for these pairs have the same quota name. */
  ghost predicate Unambiguous(ps: seq<Pair>) {
    forall c, d | IsCounterOf(c, ps) && IsCounterOf(d, ps) && NameOf(c) == NameOf(d) :: c == d
  }

  ghost predicate ProperPairs(ps: seq<Pair>) { forall p | p in ps :: p.intIface != p.extIface }

  lemma {:induction false} RulesOf(ps: seq<Pair>, c: Counter)
    ensures c in Rules(ps) <==> IsCounterOf(c, ps)
  {
    if ps != [] {
      var init, last := ps[..|ps| - 1], ps[|ps| - 1];
      RulesOf(init, c);
      assert forall p :: p in ps <==> p in init || p == last;
      if IsCounterOf(c, ps) && !IsCounterOf(c, init) {
        assert c == Forth(last) || c == Back(last);
      }
    }
  }

  lemma KnownIffCounted(ps: seq<Pair>, p: Pair)
    ensures Known(ps, p) <==> Forth(p) in Rules(ps)
    ensures Known(ps, p) <==> Back(p) in Rules(ps)
  {
    RulesOf(ps, Forth(p));
    RulesOf(ps, Back(p));
    if Known(ps, p) {
      var q := if p in ps then p else Reversed(p);
      assert q in ps;
    }
  }

  /** Among unambiguous rules a name is taken exactly when its rule is there. */
  lemma NamedIffIn(ps: seq<Pair>, cs: seq<Counter>, c: Counter)
    requires Unambiguous(ps) && IsCounterOf(c, ps) && forall d | d in cs :: IsCounterOf(d, ps)
    ensures Named(cs, NameOf(c)) <==> c in cs
  {
  }

  lemma CountersOf(ps: seq<Pair>, p: Pair)
    ensures forall d | d in Rules(ps) :: IsCounterOf(d, ps + [p])
    ensures IsCounterOf(Forth(p), ps + [p]) && IsCounterOf(Back(p), ps + [p])
  {
    var all := ps + [p];
    assert p in all;
    forall d | d in Rules(ps) ensures IsCounterOf(d, all) {
      RulesOf(ps, d);
      var q :| q in ps && (d == Forth(q) || d == Back(q));
      assert q in all;
    }
  }

  /** Enabling one more pair adds its two rules exactly when the pair is new. */
  lemma CountPairStep(ps: seq<Pair>, p: Pair)
    requires p.intIface != p.extIface && Unambiguous(ps + [p])
    ensures CountPair(Rules(ps), p.intIface, p.extIface) == Rules(if Known(ps, p) then ps else ps + [p])
  {
    hide Unambiguous, IsCounterOf, Named, NameOf, Known;
    var all, cs := ps + [p], Rules(ps);
    CountersOf(ps, p);
    KnownIffCounted(ps, p);
    NamedIffIn(all, cs, Forth(p));
    if !Known(ps, p) {
      var cs1 := cs + [Forth(p)];
      NamedIffIn(all, cs1, Back(p));
      assert all[..|all| - 1] == ps;
      assert cs1 + [Back(p)] == cs + [Forth(p), Back(p)];
    }
  }

  lemma FewerPairs(a: seq<Pair>, b: seq<Pair>)
    requires Unambiguous(b) && forall p | p in a :: p in b
    ensures Unambiguous(a)
  {
    forall c | IsCounterOf(c, a) ensures IsCounterOf(c, b) {
      var p :| p in a && (c == Forth(p) || c == Back(p));
      assert p in b;
    }
  }

  ghost predicate NoPairTwice(ps: seq<Pair>) {
    forall i, j | 0 <= i < j < |ps| :: ps[i] != ps[j] && ps[i] != Reversed(ps[j])
  }

  /** The counter chain after every history of successful enables, as long as the names are unambiguous. */
  lemma {:induction false} HistoryIsPaired(ps: seq<Pair>, history: seq<Pair>)
    requires ProperPairs(history) && Unambiguous(ps + history) && NoPairTwice(ps)
    ensures CountAll(Rules(ps), history) == Rules(FirstPairs(ps, history))
    ensures NoPairTwice(FirstPairs(ps, history))
    ensures forall p | p in ps || p in history :: Known(FirstPairs(ps, history), p)
    ensures forall p | p in FirstPairs(ps, history) :: p in ps || p in history
    decreases history
  {
    if history != [] {
      var p := history[0];
      assert p in history;
      FewerPairs(ps + [p], ps + history);
      CountPairStep(ps, p);
      var ps' := if Known(ps, p) then ps else ps + [p];
      FewerPairs(ps' + history[1..], ps + history);
      assert NoPairTwice(ps');
      HistoryIsPaired(ps', history[1..]);
      forall q | q in ps || q in history ensures Known(FirstPairs(ps, history), q) {
        if q == p {
          KnownKept(ps', history[1..], p);
        } else {
          assert q in ps' || q in history[1..];
        }
      }
    }
  }

  lemma KnownKept(ps: seq<Pair>, history: seq<Pair>, p: Pair)
    requires Known(ps, p)
    requires forall q | q in ps :: Known(FirstPairs(ps, history), q)
    ensures Known(FirstPairs(ps, history), p)
  {
    assert Known(FirstPairs(ps, history), if p in ps then p else Reversed(p));
    assert Reversed(Reversed(p)) == p;
  }

  ghost predicate DistinctNames(cs: seq<Counter>) {
    forall c, d | c in cs && d in cs && NameOf(c) == NameOf(d) :: c == d
  }

  lemma {:induction false} NamesStayDistinct(cs: seq<Counter>, history: seq<Pair>)
    requires DistinctNames(cs)
    ensures DistinctNames(CountAll(cs, history))
    decreases history
  {
    if history != [] {
      NamesStayDistinct(CountPair(cs, history[0].intIface, history[0].extIface), history[1..]);
    }
  }

  ghost predicate AllCounted(cs: seq<Counter>, history: seq<Pair>) {
    forall p | p in history :: Forth(p) in cs && Back(p) in cs
  }

  /** Every enabled pair has both of its counting rules exactly when no two rules share a quota name. */
  lemma CountedIffUnambiguous(history: seq<Pair>)
    requires ProperPairs(history)
    ensures AllCounted(CountAll([], history), history) <==> Unambiguous(history)
  {
    var cs := CountAll([], history);
    if Unambiguous(history) {
      assert [] + history == history;
      HistoryIsPaired([], history);
      var ps := FirstPairs([], history);
      forall p | p in history ensures Forth(p) in cs && Back(p) in cs {
        var q := if p in ps then p else Reversed(p);
        assert Known(ps, p) && q in ps;
        RulesOf(ps, Forth(p));
        RulesOf(ps, Back(p));
      }
    }
    if AllCounted(cs, history) {
      NamesStayDistinct([], history);
      forall c | IsCounterOf(c, history) ensures c in cs {
        var p :| p in history && (c == Forth(p) || c == Back(p));
      }
    }
  }

  lemma {:induction false} FirstPairsKnow(ps: seq<Pair>, history: seq<Pair>)
    ensures forall p | p in ps || p in history :: Known(FirstPairs(ps, history), p)
    decreases history
  {
    if history != [] {
      var ps' := if Known(ps, history[0]) then ps else ps + [history[0]];
      FirstPairsKnow(ps', history[1..]);
      assert forall p | p in ps :: p in ps';
      KnownKept(ps', history[1..], history[0]);
      assert forall p | p in history :: p == history[0] || p in history[1..];
    }
  }

  /**
   * After any history of enables the chain is adjacent pairs of rules, one pair for each pair of interfaces in the
   * order they were first enabled, exactly when no two rules share a quota name.
   */
  lemma PairedIffUnambiguous(history: seq<Pair>)
    requires ProperPairs(history)
    ensures CountAll([], history) == Rules(FirstPairs([], history)) <==> Unambiguous(history)
  {
    var ps := FirstPairs([], history);
    if Unambiguous(history) {
      assert [] + history == history;
      HistoryIsPaired([], history);
    }
    if CountAll([], history) == Rules(ps) {
      FirstPairsKnow([], history);
      forall p | p in history ensures Forth(p) in Rules(ps) && Back(p) in Rules(ps) {
        var q := if p in ps then p else Reversed(p);
        assert Known(ps, p) && q in ps;
        RulesOf(ps, Forth(p));
        RulesOf(ps, Back(p));
      }
      CountedIffUnambiguous(history);
    }
  }

  /** Interface names without an underscore are safe. */
  lemma PlainNamesUnambiguous(ps: seq<Pair>)
    requires forall p | p in ps :: '_' !in p.intIface && '_' !in p.extIface
    ensures Unambiguous(ps)
  {
    forall c, d | IsCounterOf(c, ps) && IsCounterOf(d, ps) && NameOf(c) == NameOf(d) ensures c == d {
      SplitOnce(c, d);
    }
  }

  lemma SplitOnce(c: Counter, d: Counter)
    requires '_' !in c.from && '_' !in d.from && NameOf(c) == NameOf(d)
    ensures c == d
  {
    if |c.from| < |d.from| {
      FirstHalf(d, |c.from|);
      assert false;
    } else if |d.from| < |c.from| {
      FirstHalf(c, |d.from|);
      assert false;
    }
    var k := |c.from|;
    assert NameOf(c)[..k] == c.from && NameOf(c)[k + 1..] == c.to;
    assert NameOf(d)[..k] == d.from && NameOf(d)[k + 1..] == d.to;
  }

  lemma FirstHalf(c: Counter, k: nat)
    requires k < |c.from| && NameOf(c)[k] == '_'
    ensures '_' in c.from
  {
    assert NameOf(c)[k] == c.from[k];
  }

  /** Underscores in interface names can leave a pair half counted: a rule without its partner. */
  lemma UnderscoresCollide()
    ensures CountAll([], [Pair("a", "b_c"), Pair("c", "a_b")]) ==
      [Counter("a", "b_c"), Counter("b_c", "a"), Counter("c", "a_b")]
  {
    var cs1 := CountPair([], "a", "b_c");
    assert "a" + "_" + "b_c" == "a_b_c" && "b_c" + "_" + "a" == "b_c_a" && "c" + "_" + "a_b" == "c_a_b" && "a_b" + "_" + "c" == "a_b_c";
    assert NameOf(Counter("a", "b_c"))[0] == 'a' && NameOf(Counter("b_c", "a"))[0] == 'b' && NameOf(Counter("c", "a_b"))[0] == 'c';
    assert cs1 == [Counter("a", "b_c"), Counter("b_c", "a")];
    var cs2 := CountPair(cs1, "c", "a_b");
    assert cs1[0] in cs1 + [Counter("c", "a_b")];
    assert cs2 == cs1 + [Counter("c", "a_b")];
    assert [Pair("a", "b_c"), Pair("c", "a_b")][1..] == [Pair("c", "a_b")];
    assert CountAll(cs1, [Pair("c", "a_b")]) == CountAll(cs2, []);
  }

  // ---- Reading the listing back ----------------------------------------------------------

  /** A line of the listing that parses: one rule with its counts. */
  datatype Row = Row(from: string, to: string, packets: nat, bytes: nat)

  /** TetherStats: -1 marks a count that has not been seen. */
  datatype Stats = Stats(intIface: string, extIface: string, rxBytes: int, rxPackets: int, txBytes: int, txPackets: int)

  function Filter(intIface: string, extIface: string): Stats { Stats(intIface, extIface, -1, -1, -1, -1) }

  datatype Reply = Line(stats: Stats) | ListLine(stats: Stats) | Completed

  function WithRx(s: Stats, r: Row): Stats { s.(rxBytes := r.bytes, rxPackets := r.packets) }

  function WithTx(s: Stats, r: Row): Stats { s.(txBytes := r.bytes, txPackets := r.packets) }

  /** What one row does to the entry under construction. */
  function Absorb(filter: Stats, s: Stats, r: Row): Stats {
    if filter.intIface != "" && filter.extIface != "" then
      if filter.intIface == r.from && filter.extIface == r.to then WithRx(s, r)
      else if filter.intIface == r.to && filter.extIface == r.from then WithTx(s, r)
      else s
    else if filter.intIface != "" || filter.extIface != "" then
      if filter.intIface == r.from || filter.extIface == r.to
      then WithRx(s.(intIface := r.from, extIface := r.to), r)
      else if filter.intIface == r.to || filter.extIface == r.from
      then WithTx(s.(intIface := r.to, extIface := r.from), r)
      else s
    else
      if s.intIface == "" then WithRx(s.(intIface := r.from, extIface := r.to), r)
      else if s.intIface == r.to && s.extIface == r.from then WithTx(s, r)
      else s
  }

  predicate Full(s: Stats) { s.rxBytes != -1 && s.txBytes != -1 }

  predicate PairFilter(f: Stats) { f.intIface != "" && f.extIface != "" }

  /** The replies and the return code from a state of the loop on. */
  function Parse(filter: Stats, s: Stats, rows: seq<Row>): (seq<Reply>, int)
    decreases rows, 0
  {
    if rows == [] then
      if (s.rxBytes == -1) == (s.txBytes == -1) then ([Completed], 0) else ([], -1)
    else
      ParseRow(filter, Absorb(filter, s, rows[0]), rows[1..])
  }

  /** A complete entry is sent; the next row starts a new one. */
  function ParseRow(filter: Stats, s: Stats, rest: seq<Row>): (seq<Reply>, int)
    decreases rest, 1
  {
    if !Full(s) then Parse(filter, s, rest)
    else if PairFilter(filter) then ([Line(s)], 0)
    else ([ListLine(s)] + Parse(filter, filter, rest).0, Parse(filter, filter, rest).1)
  }

  /** The rows of a listing; header and other lines do not parse and are skipped. */
  function Rows(lines: seq<Option<Row>>): seq<Row> {
    if lines == [] then [] else (if lines[0].Some? then [lines[0].value] else []) + Rows(lines[1..])
  }

  /** One row of the listing against the filter. */
  method AddRow(filter: Stats, stats: Stats, r: Row) returns (s: Stats)
    ensures s == Absorb(filter, stats, r)
  {
    s := stats;
    if filter.intIface != "" && filter.extIface != "" {
      if filter.intIface == r.from && filter.extIface == r.to {
        s := WithRx(s, r);
      } else if filter.intIface == r.to && filter.extIface == r.from {
        s := WithTx(s, r);
      }
    } else if filter.intIface != "" || filter.extIface != "" {
      if filter.intIface == r.from || filter.extIface == r.to {
        s := WithRx(s.(intIface := r.from, extIface := r.to), r);
      } else if filter.intIface == r.to || filter.extIface == r.from {
        s := WithTx(s.(intIface := r.to, extIface := r.from), r);
      }
    } else {
      if s.intIface == "" {
        s := WithRx(s.(intIface := r.from, extIface := r.to), r);
      } else if s.intIface == r.to && s.extIface == r.from {
        s := WithTx(s, r);
      }
    }
  }

  method ParseForwardChainStats(filter: Stats, lines: seq<Option<Row>>) returns (replies: seq<Reply>, rc: int)
    ensures (replies, rc) == Parse(filter, filter, Rows(lines))
  {
    hide Absorb;
    var stats := filter;
    replies := [];
    assert lines[0..] == lines;
    ghost var want := Parse(filter, filter, Rows(lines));
    for i := 0 to |lines|
      invariant want.0 == replies + Parse(filter, stats, Rows(lines[i..])).0
      invariant want.1 == Parse(filter, stats, Rows(lines[i..])).1
    {
      ghost var rest, was := lines[i..], stats;
      assert rest[0] == lines[i] && rest[1..] == lines[i + 1..];
      if lines[i].Some? {
        var r := lines[i].value;
        assert Rows(rest) == [r] + Rows(rest[1..]) && Rows(rest)[1..] == Rows(rest[1..]);
        ghost var done, tail := replies, Rows(lines[i + 1..]);
        assert Parse(filter, was, Rows(rest)) == ParseRow(filter, Absorb(filter, was, r), tail);
        stats := AddRow(filter, stats, r);
        if stats.rxBytes != -1 && stats.txBytes != -1 {
          if PairFilter(filter) {
            replies := replies + [Line(stats)];
            return replies, 0;
          }
          replies := replies + [ListLine(stats)];
          assert done + ([ListLine(stats)] + Parse(filter, filter, tail).0) == replies + Parse(filter, filter, tail).0;
          stats := filter;
        }
      } else {
        assert Rows(rest) == Rows(rest[1..]);
      }
    }
    assert Rows(lines[|lines|..]) == [];
    if (stats.rxBytes == -1) == (stats.txBytes == -1) {
      replies := replies + [Completed];
      return replies, 0;
    }
    assert replies + [] == replies;
    rc := -1;
  }

  // ---- What the client gets --------------------------------------------------------------

  /** The counts of one pair: internal to external, and back. */
  datatype Tether = Tether(pair: Pair, outBytes: nat, outPackets: nat, inBytes: nat, inPackets: nat)

  function PairRows(t: Tether): seq<Row> {
    [Row(t.pair.intIface, t.pair.extIface, t.outPackets, t.outBytes), Row(t.pair.extIface, t.pair.intIface, t.inPackets, t.inBytes)]
  }

  function Listing(ts: seq<Tether>): seq<Row> {
    if ts == [] then [] else PairRows(ts[0]) + Listing(ts[1..])
  }

  function Forwards(t: Tether): Stats {
    Stats(t.pair.intIface, t.pair.extIface, t.outBytes, t.outPackets, t.inBytes, t.inPackets)
  }

  /** The same pair seen with the roles of the two interfaces exchanged. */
  function Backwards(t: Tether): Stats {
    Stats(t.pair.extIface, t.pair.intIface, t.inBytes, t.inPackets, t.outBytes, t.outPackets)
  }

  /** The line a filter calls for: the pair as the filter names it, or nothing. */
  function Wanted(filter: Stats, t: Tether): Option<Stats> {
    if (filter.intIface == "" || filter.intIface == t.pair.intIface) && (filter.extIface == "" || filter.extIface == t.pair.extIface)
    then Some(Forwards(t))
    else if (filter.intIface == "" || filter.intIface == t.pair.extIface) && (filter.extIface == "" || filter.extIface == t.pair.intIface)
    then Some(Backwards(t))
    else None
  }

  function Expected(filter: Stats, ts: seq<Tether>): seq<Reply> {
    if ts == [] then [Completed]
    else
      var w := Wanted(filter, ts[0]);
      if w == None then Expected(filter, ts[1..])
      else if PairFilter(filter) then [Line(w.value)]
      else [ListLine(w.value)] + Expected(filter, ts[1..])
  }

  ghost predicate ProperTether(t: Tether) {
    t.pair.intIface != "" && t.pair.extIface != "" && t.pair.intIface != t.pair.extIface
  }

  /** One pair's two rows: an entry is complete after both, or untouched. */
  lemma TwoRows(filter: Stats, t: Tether)
    requires filter == Filter(filter.intIface, filter.extIface) && ProperTether(t)
    ensures var s1 := Absorb(filter, filter, PairRows(t)[0]);
      var s2 := Absorb(filter, s1, PairRows(t)[1]);
      !Full(s1) && match Wanted(filter, t) case None => s1 == filter && s2 == filter case Some(w) => s2 == w && Full(s2)
  {
  }

  /**
   * For every listing made of adjacent pairs and every filter, the client gets exactly one line per pair
   * that the filter asks for, with the counts in the direction the filter names, and never an error.
   */
  lemma {:induction false} OneLinePerPair(filter: Stats, ts: seq<Tether>)
    requires filter == Filter(filter.intIface, filter.extIface)
    requires forall t | t in ts :: ProperTether(t)
    ensures Parse(filter, filter, Listing(ts)) == (Expected(filter, ts), 0)
  {
    if ts != [] {
      var t, rows, rest := ts[0], Listing(ts), Listing(ts[1..]);
      assert rows[0] == PairRows(t)[0] && rows[1..][0] == PairRows(t)[1] && rows[1..][1..] == rest;
      TwoRows(filter, t);
      var s1 := Absorb(filter, filter, rows[0]);
      OneLinePerPair(filter, ts[1..]);
      assert Parse(filter, filter, rows) == Parse(filter, s1, rows[1..]);
    }
  }

  function Lines(ts: seq<Tether>): seq<Reply> { if ts == [] then [] else [ListLine(Forwards(ts[0]))] + Lines(ts[1..]) }

  /** Without a filter, a last row that is missing its counterpart is an error after the lines of the others. */
  lemma {:induction false} UnpairedRowFails(ts: seq<Tether>, r: Row)
    requires (forall t | t in ts :: ProperTether(t)) && r.from != ""
    ensures Parse(Filter("", ""), Filter("", ""), Listing(ts) + [r]) == (Lines(ts), -1)
  {
    var filter := Filter("", "");
    if ts == [] {
      assert Listing(ts) + [r] == [r] && [r][1..] == [];
      assert Parse(filter, filter, [r]) == ParseRow(filter, Absorb(filter, filter, r), []);
    } else {
      var t, rows, rest := ts[0], Listing(ts) + [r], Listing(ts[1..]) + [r];
      assert rows[0] == PairRows(t)[0] && rows[1..][0] == PairRows(t)[1] && rows[1..][1..] == rest;
      TwoRows(filter, t);
      var s1 := Absorb(filter, filter, rows[0]);
      UnpairedRowFails(ts[1..], r);
      assert Parse(filter, filter, rows) == Parse(filter, s1, rows[1..]);
    }
  }

  /** The counts the listing shows, pair by pair. */
  function Tethers(ps: seq<Pair>, rows: seq<Row>): seq<Tether>
    requires |rows| == 2 * |ps|
  {
    if ps == [] then [] else
    [Tether(ps[0], rows[0].bytes, rows[0].packets, rows[1].bytes, rows[1].packets)] + Tethers(ps[1..], rows[2..])
  }

  /** The listing shows the rules of the chain in order. */
  ghost predicate Shows(rows: seq<Row>, cs: seq<Counter>) {
    |rows| == |cs| && forall i | 0 <= i < |cs| :: Counter(rows[i].from, rows[i].to) == cs[i]
  }

  lemma RulesFromBack(ps: seq<Pair>)
    ensures ps == [] ==> Rules(ps) == []
    ensures ps != [] ==> Rules(ps) == Rules(ps[..|ps| - 1]) + [Forth(ps[|ps| - 1]), Back(ps[|ps| - 1])]
  {
  }

  lemma {:induction false} RulesFromFront(ps: seq<Pair>)
    requires ps != []
    ensures Rules(ps) == [Forth(ps[0]), Back(ps[0])] + Rules(ps[1..])
  {
    hide Rules;
    var last := |ps| - 1;
    RulesFromBack(ps);
    if last == 0 {
      assert ps[..0] == [] && ps[1..] == [];
      RulesFromBack(ps[1..]);
    } else {
      RulesFromFront(ps[..last]);
      RulesFromBack(ps[1..]);
      assert ps[..last][1..] == ps[1..][..last - 1] && ps[1..][last - 1] == ps[last];
    }
  }

  lemma ShowsFront(ps: seq<Pair>, rows: seq<Row>)
    requires ps != [] && Shows(rows, Rules(ps))
    ensures |rows| == 2 * |ps| && Shows(rows[2..], Rules(ps[1..]))
    ensures Counter(rows[0].from, rows[0].to) == Forth(ps[0]) && Counter(rows[1].from, rows[1].to) == Back(ps[0])
  {
    hide Rules;
    RulesFromFront(ps);
    assert Rules(ps)[0] == Forth(ps[0]) && Rules(ps)[1] == Back(ps[0]);
    assert Rules(ps)[2..] == Rules(ps[1..]);
  }

  lemma {:induction false} ListingOfTethers(ps: seq<Pair>, rows: seq<Row>)
    requires Shows(rows, Rules(ps))
    ensures Listing(Tethers(ps, rows)) == rows
    ensures |Tethers(ps, rows)| == |ps| && forall i | 0 <= i < |ps| :: Tethers(ps, rows)[i].pair == ps[i]
  {
    hide Rules;
    if ps != [] {
      ShowsFront(ps, rows);
      ListingOfTethers(ps[1..], rows[2..]);
      var ts := Tethers(ps, rows);
      assert ts[1..] == Tethers(ps[1..], rows[2..]);
      assert PairRows(ts[0]) == rows[..2];
      assert rows == rows[..2] + rows[2..];
    }
  }

  /**
   * End to end: after any history of enables with unambiguous names, whatever the counts are and
   * whatever the filter, the client reads back each pair once, in the order the pairs were first enabled.
   */
  lemma HistoryReadsBack(filter: Stats, history: seq<Pair>, rows: seq<Row>)
    requires filter == Filter(filter.intIface, filter.extIface)
    requires ProperPairs(history) && Unambiguous(history)
    requires forall p | p in history :: p.intIface != "" && p.extIface != ""
    requires Shows(rows, CountAll([], history))
    ensures var ps := FirstPairs([], history);
      |rows| == 2 * |ps| && Parse(filter, filter, rows) == (Expected(filter, Tethers(ps, rows)), 0)
  {
    var ps := FirstPairs([], history);
    assert [] + history == history;
    HistoryIsPaired([], history);
    ListingOfTethers(ps, rows);
    var ts := Tethers(ps, rows);
    forall t | t in ts ensures ProperTether(t) {
      var i :| 0 <= i < |ts| && ts[i] == t;
      assert ps[i] in history;
    }
    OneLinePerPair(filter, ts);
  }
}
