/**
 * The part of the kernel's filter table that netd's bandwidth controller edits:
 * chains of rules, the iptables commands that change them, and the walk a packet
 * takes through them.
 */
module Iptables {
  import opened Util

  datatype Direction = Inbound | Outbound

  /** `Costly(n)` is the chain named "bw_costly_<n>"; `Costly("shared")` is the shared one. */
  datatype Chain = Input | Output | Forward | HappyBox | PenaltyBox | Costly(name: string)

  /** `OverQuota(n)` is "-m quota2 ! --quota <bytes> --name <n>": it matches once the quota is used up. */
  datatype Match =
    | Anything
    | Via(dir: Direction, iface: string)
    | Owner(uid: int)
    | OverQuota(name: string)
    | HasSocket

  /** `Continue` is a rule without "--jump": it only counts. */
  datatype Target = Continue | Reject | Return | Jump(chain: Chain)

  datatype Rule = Rule(on: Match, target: Target)

  /**
   * The chains. bw_INPUT, bw_OUTPUT, bw_FORWARD and bw_penalty_box are created at start-up and stay;
   * bw_happy_box and the costly chains come and go.
   */
  datatype Table = Table(
    input: seq<Rule>, output: seq<Rule>, forward: seq<Rule>, penalty: seq<Rule>,
    happy: Option<seq<Rule>>, costly: map<string, seq<Rule>>)

  predicate Exists(t: Table, c: Chain) {
    match c
    case HappyBox => t.happy.Some?
    case Costly(n) => n in t.costly
    case _ => true
  }

  function Get(t: Table, c: Chain): seq<Rule>
    requires Exists(t, c)
  {
    match c
    case Input => t.input
    case Output => t.output
    case Forward => t.forward
    case PenaltyBox => t.penalty
    case HappyBox => t.happy.value
    case Costly(n) => t.costly[n]
  }

  function Put(t: Table, c: Chain, rules: seq<Rule>): Table {
    match c
    case Input => t.(input := rules)
    case Output => t.(output := rules)
    case Forward => t.(forward := rules)
    case PenaltyBox => t.(penalty := rules)
    case HappyBox => t.(happy := Some(rules))
    case Costly(n) => t.(costly := t.costly[n := rules])
  }

  function Drop(t: Table, c: Chain): Table {
    match c
    case HappyBox => t.(happy := None)
    case Costly(n) => t.(costly := t.costly - {n})
    case _ => t
  }

  datatype Packet = Packet(dir: Direction, iface: string, owner: Option<int>, exhausted: set<string>)

  datatype Command =
    | NewChain(chain: Chain)
    | DeleteChain(chain: Chain)
    | Flush(chain: Chain)
    | Append(chain: Chain, rule: Rule)
    | Insert(chain: Chain, pos: nat, rule: Rule)
    | Delete(chain: Chain, rule: Rule)

  predicate TargetExists(t: Table, r: Rule) {
    r.target.Jump? ==> Exists(t, r.target.chain)
  }

  predicate Mentions(rules: seq<Rule>, c: Chain) {
    exists r | r in rules :: r.target == Jump(c)
  }

  predicate Referenced(t: Table, c: Chain) {
    || Mentions(t.input, c) || Mentions(t.output, c) || Mentions(t.forward, c) || Mentions(t.penalty, c)
    || (t.happy.Some? && Mentions(t.happy.value, c))
    || (exists n | n in t.costly :: Mentions(t.costly[n], c))
  }

  /** When iptables accepts the command. */
  predicate Accepts(t: Table, cmd: Command) {
    match cmd
    case NewChain(c) => !Exists(t, c)
    case DeleteChain(c) => (c.HappyBox? || c.Costly?) && Exists(t, c) && Get(t, c) == [] && !Referenced(t, c)
    case Flush(c) => Exists(t, c)
    case Append(c, r) => Exists(t, c) && TargetExists(t, r)
    case Insert(c, pos, r) => Exists(t, c) && 1 <= pos <= |Get(t, c)| + 1 && TargetExists(t, r)
    case Delete(c, r) => Exists(t, c) && r in Get(t, c)
  }

  /** The table after the command; a refused command changes nothing. */
  function Exec(t: Table, cmd: Command): Table {
    if !Accepts(t, cmd) then t else
    match cmd
    case NewChain(c) => Put(t, c, [])
    case DeleteChain(c) => Drop(t, c)
    case Flush(c) => Put(t, c, [])
    case Append(c, r) => Put(t, c, Get(t, c) + [r])
    case Insert(c, pos, r) => Put(t, c, Get(t, c)[..pos - 1] + [r] + Get(t, c)[pos - 1..])
    case Delete(c, r) => Put(t, c, RemoveFirst(Get(t, c), r))
  }

  predicate Matches(m: Match, p: Packet) {
    match m
    case Anything => true
    case Via(dir, iface) => dir == p.dir && iface == p.iface
    case Owner(uid) => p.owner == Some(uid)
    case OverQuota(name) => name in p.exhausted
    case HasSocket => p.owner.Some?
  }

  /** Whether the packet is rejected somewhere along `rules`, following at most `depth` nested jumps. */
  predicate Rejects(t: Table, rules: seq<Rule>, p: Packet, depth: nat)
    decreases depth, |rules|
  {
    rules != [] &&
    var rest := rules[1..];
    if !Matches(rules[0].on, p) then Rejects(t, rest, p, depth) else
    match rules[0].target
    case Continue => Rejects(t, rest, p, depth)
    case Reject => true
    case Return => false
    case Jump(c) =>
      (depth > 0 && Exists(t, c) && Rejects(t, Get(t, c), p, depth - 1)) || Rejects(t, rest, p, depth)
  }

  /** The rules the packet meets on that walk; a quota rule counts each packet that reaches it. */
  function Reached(t: Table, rules: seq<Rule>, p: Packet, depth: nat): (r: set<Rule>)
    decreases depth, |rules|
  {
    if rules == [] then {} else
    var rest := rules[1..];
    {rules[0]} +
    if !Matches(rules[0].on, p) then Reached(t, rest, p, depth) else
    match rules[0].target
    case Continue => Reached(t, rest, p, depth)
    case Reject => {}
    case Return => {}
    case Jump(c) =>
      if depth == 0 || !Exists(t, c) then Reached(t, rest, p, depth) else
      Reached(t, Get(t, c), p, depth - 1) +
      (if Rejects(t, Get(t, c), p, depth - 1) then {} else Reached(t, rest, p, depth))
  }

  /** One step of the walk. */
  lemma RejectsCons(t: Table, r: Rule, rest: seq<Rule>, p: Packet, depth: nat)
    ensures Rejects(t, [r] + rest, p, depth) == (
      if !Matches(r.on, p) then Rejects(t, rest, p, depth) else
      match r.target
      case Continue => Rejects(t, rest, p, depth)
      case Reject => true
      case Return => false
      case Jump(c) => (depth > 0 && Exists(t, c) && Rejects(t, Get(t, c), p, depth - 1)) || Rejects(t, rest, p, depth))
  {
    assert ([r] + rest)[1..] == rest;
  }

  lemma ReachedCons(t: Table, r: Rule, rest: seq<Rule>, p: Packet, depth: nat)
    ensures Reached(t, [r] + rest, p, depth) == {r} + (
      if !Matches(r.on, p) || r.target == Continue then Reached(t, rest, p, depth)
      else if !r.target.Jump? then {}
      else if depth == 0 || !Exists(t, r.target.chain) then Reached(t, rest, p, depth)
      else (
        var inner := Get(t, r.target.chain);
        Reached(t, inner, p, depth - 1) +
        (if Rejects(t, inner, p, depth - 1) then {} else Reached(t, rest, p, depth))))
  {
    assert ([r] + rest)[1..] == rest;
  }
}
