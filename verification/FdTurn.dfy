/**
 * One turn of adb's event loop as a function of values: fdevents by number, the queue of pending ones,
 * and callbacks that are scripts of calls back into the event module.
 */
module FdTurn {
  import opened Util

  const READ: bv8 := 0x01
  const WRITE: bv8 := 0x02
  const ERROR: bv8 := 0x04
  const DONT_CLOSE: bv8 := 0x80
  const MAX_FD := 32000
  const FD_SETSIZE := 1024

  /**
   * struct fdevent without its links. `wanted` is the low byte of its state word; `active`, `pending`
   * and `created` are the bits of the high byte.
   */
  datatype Fde = Fde(fd: int, wanted: bv8, active: bool, pending: bool, created: bool, events: bv8)

  /**
   * The calls a callback may make. Events are named by number, in the order they came to be known.
   * SubprocExit is what the shell-exit handler does for the descriptor it has read: `data` says whether
   * input is left on it, `body` is the callback of the fdevent found there.
   */
  datatype Call =
    | Create(fd: int)
    | Reinstall(event: nat, fd: int)
    | Remove(event: nat)
    | Destroy(event: nat)
    | SetTo(event: nat, events: bv8)
    | Add(event: nat, events: bv8)
    | Del(event: nat, events: bv8)
    | SubprocExit(fd: int, data: bool, body: seq<Call>)

  /** A callback that was run: the fdevent just before, and whether it was called without being queued. */
  datatype Entry = Entry(event: nat, state: Fde, direct: bool)

  /** Aborted: a FATAL check fired. OutOfStep: an install put the table out of step with the fdevents. */
  datatype Fate = Running | Aborted | OutOfStep

  datatype Outcome = Outcome(world: World, log: seq<Entry>, fate: Fate)

  predicate Wants(wanted: bv8, bit: bv8) { wanted & bit != 0 }

  predicate Idle(wanted: bv8) { !Wants(wanted, READ) && !Wants(wanted, WRITE) && !Wants(wanted, ERROR) }

  function Cleared(events: bv8, bits: bv8): bv8 { events & !bits }

  function Merged(events: bv8, bits: bv8): bv8 { events | bits }

  /** fdevent_set on an fdevent: when it is pending, the very bits just requested are cleared. */
  function Interest(v: Fde, events: bv8): Fde {
    if v.wanted == events then v
    else if !v.pending then v.(wanted := events)
    else var left := Cleared(v.events, events); v.(wanted := events, events := left, pending := left != 0)
  }

  /** The fdevents by number, the pending ones in order, and the size of fd_table. */
  datatype World = World(fdes: seq<Fde>, queue: seq<nat>, max: nat) {

    /** The number of the fdevent in fd_table at a descriptor, or -1. */
    function Owner(fd: int): (r: int)
      ensures -1 <= r < |fdes|
    {
      OwnerBelow(fdes, fd, |fdes|)
    }

    predicate InRange() { forall i | i in queue :: i < |fdes| }

    /** Queued exactly when PENDING, which is exactly when some event is signalled; one fdevent per descriptor. */
    ghost predicate Sound() {
      && InRange() && NoDups(queue)
      && (forall i: nat | i < |fdes| :: (fdes[i].pending <==> i in queue) && (fdes[i].pending <==> fdes[i].events != 0))
      && (forall i: nat | i < |fdes| && fdes[i].pending :: fdes[i].active)
      && (forall i: nat, j: nat | i < j < |fdes| && fdes[i].active && fdes[j].active :: fdes[i].fd != fdes[j].fd)
    }

    /** The two FATAL checks of fdevent_register; a table that has grown takes descriptors past the limit. */
    predicate Aborts(fd: int) { fd < 0 || (fd >= max && fd > MAX_FD) }

    /** Installing leaves table and sets in step: on a free descriptor, or again on its own one while idle. */
    predicate InStep(i: nat, fd: int)
      requires i < |fdes|
    {
      || (!fdes[i].active && Owner(fd) == -1)
      || (Owner(fd) == i && !fdes[i].pending && Idle(fdes[i].wanted))
    }

    function Installed(i: nat, fd: int): World
      requires i < |fdes|
    {
      World(fdes[i := Fde(fd, 0, true, false, false, 0)], queue, GrownMax(max, fd))
    }

    function Dropped(i: nat): (w: World)
      requires i < |fdes|
      ensures Among(w.queue, queue)
    {
      StillAmong(queue, i);
      World(fdes[i := Fde(fdes[i].fd, 0, false, false, false, 0)], if fdes[i].pending then RemoveFirst(queue, i) else queue, max)
    }

    function Retargeted(i: nat, events: bv8): (w: World)
      requires i < |fdes|
      ensures Among(w.queue, queue)
    {
      StillAmong(queue, i);
      var v := Interest(fdes[i], events);
      World(fdes[i := v], if fdes[i].pending && !v.pending then RemoveFirst(queue, i) else queue, max)
    }

    /** As fdevent_call_fdfunc leaves it for the callback. */
    function Called(i: nat): World
      requires i < |fdes|
    {
      this.(fdes := fdes[i := fdes[i].(events := 0, pending := false)])
    }
  }

  /** A queue that has only lost members. */
  predicate Among(q: seq<nat>, queue: seq<nat>) { |q| <= |queue| && forall i | i in q :: i in queue }

  lemma {:induction false} StillAmong(queue: seq<nat>, i: nat)
    ensures Among(RemoveFirst(queue, i), queue)
    ensures forall k | k in queue && k != i :: k in RemoveFirst(queue, i)
  {
    if queue != [] && queue[0] != i {
      StillAmong(queue[1..], i);
    }
  }

  function OwnerBelow(fdes: seq<Fde>, fd: int, n: nat): (r: int)
    requires n <= |fdes|
    ensures -1 <= r < n
    ensures r >= 0 ==> fdes[r].active && fdes[r].fd == fd
    ensures r == -1 ==> forall i: nat | i < n :: !(fdes[i].active && fdes[i].fd == fd)
  {
    if n == 0 then -1 else if fdes[n - 1].active && fdes[n - 1].fd == fd then n - 1 else OwnerBelow(fdes, fd, n - 1)
  }

  /** The table size after registering a descriptor. */
  function GrownMax(max: nat, fd: int): (r: nat)
    ensures max <= r && fd < r
  {
    if fd < max then max else Doubled(if max == 0 then 256 else max, fd)
  }

  function Doubled(max: nat, fd: int): (r: nat)
    requires max > 0
    ensures max <= r && fd < r
    decreases fd - max
  {
    if max <= fd then Doubled(2 * max, fd) else max
  }

  /** A table starts with 256 entries and doubles until the descriptor fits. */
  lemma TableGrows(max: nat, fd: int)
    ensures fd < max ==> GrownMax(max, fd) == max
    ensures fd < 256 && 0 <= fd ==> GrownMax(0, fd) == 256
    ensures 0 < max <= fd ==> GrownMax(max, fd) == GrownMax(2 * max, fd)
  {
    if 0 < max <= fd {
      assert Doubled(max, fd) == Doubled(2 * max, fd);
      assert fd < 2 * max ==> Doubled(2 * max, fd) == 2 * max;
    }
  }

  function Done(w: World): Outcome { Outcome(w, [], Running) }

  /** An outcome with the callbacks that were run before. */
  function Then(log: seq<Entry>, o: Outcome): Outcome { Outcome(o.world, log + o.log, o.fate) }

  /** A call on an fdevent. */
  function CallOn(w: World, i: nat, c: Call): (o: Outcome)
    requires i < |w.fdes| && !c.Create? && !c.SubprocExit?
    ensures Among(o.world.queue, w.queue) && |w.fdes| == |o.world.fdes|
  {
    match c
    case Reinstall(_, fd) =>
      if w.Aborts(fd) then Outcome(w, [], Aborted)
      else Outcome(w.Installed(i, fd), [], if w.InStep(i, fd) then Running else OutOfStep)
    case Remove(_) => Done(w.Dropped(i))
    case Destroy(_) => if w.fdes[i].created then Done(w.Dropped(i)) else Outcome(w, [], Aborted)
    case SetTo(_, events) => Done(w.Retargeted(i, events))
    case Add(_, events) => Done(w.Retargeted(i, Merged(w.fdes[i].wanted, events)))
    case Del(_, events) => Done(w.Retargeted(i, Cleared(w.fdes[i].wanted, events)))
  }

  function RunCall(w: World, c: Call): (o: Outcome)
    ensures Among(o.world.queue, w.queue) && |w.fdes| <= |o.world.fdes|
    decreases c
  {
    match c
    case Create(fd) =>
      if w.Aborts(fd) then Outcome(w, [], Aborted)
      else
        var w' := World(w.fdes + [Fde(fd, 0, true, false, true, 0)], w.queue, GrownMax(w.max, fd));
        Outcome(w', [], if w.Owner(fd) == -1 then Running else OutOfStep)
    case SubprocExit(fd, data, body) =>
      var i := w.Owner(fd);
      if i == -1 || data then Done(w)
      else
        var v := w.fdes[i].(events := Merged(w.fdes[i].events, READ));
        if v.pending then Done(w.(fdes := w.fdes[i := v]))
        else
          Then([Entry(i, v.(pending := true), true)], RunCalls(w.Called(i), body))
    case _ => if c.event < |w.fdes| then CallOn(w, c.event, c) else Done(w)
  }

  function RunCalls(w: World, script: seq<Call>): (o: Outcome)
    ensures Among(o.world.queue, w.queue) && |w.fdes| <= |o.world.fdes|
    decreases script
  {
    if script == [] then Done(w)
    else
      var o := RunCall(w, script[0]);
      if o.fate.Running? then Then(o.log, RunCalls(o.world, script[1..])) else o
  }

  /** The world at the first callback: its fdevent is off the queue and its PENDING bit is clear. */
  function First(w: World): World
    requires w.queue != [] && w.InRange()
  {
    assert w.queue[0] in w.queue;
    w.(queue := w.queue[1..]).Called(w.queue[0])
  }

  /** The script of the next callback, and those after; a callback without a script makes no calls. */
  function Head(scripts: seq<seq<Call>>): seq<Call> { if scripts == [] then [] else scripts[0] }

  function Tail(scripts: seq<seq<Call>>): seq<seq<Call>> { if scripts == [] then [] else scripts[1..] }

  /** The loop of fdevent_loop that empties the pending list; the n-th callback is the n-th script, then nothing. */
  function Dispatch(w: World, scripts: seq<seq<Call>>): (o: Outcome)
    requires w.InRange()
    decreases |w.queue|
  {
    if w.queue == [] then Done(w)
    else
      assert w.queue[0] in w.queue && forall k | k in w.queue[1..] :: k in w.queue;
      var i := w.queue[0];
      var o := RunCalls(First(w), Head(scripts));
      var rest := Tail(scripts);
      Then([Entry(i, w.fdes[i], false)], if o.fate.Running? then Then(o.log, Dispatch(o.world, rest)) else o)
  }

  lemma DispatchStep(w: World, scripts: seq<seq<Call>>)
    requires w.InRange() && w.queue != []
    ensures w.queue[0] < |w.fdes|
    ensures var o := RunCalls(First(w), Head(scripts));
      && |o.world.queue| < |w.queue| && o.world.InRange()
      && Dispatch(w, scripts) ==
         Then([Entry(w.queue[0], w.fdes[w.queue[0]], false)], if o.fate.Running? then Then(o.log, Dispatch(o.world, Tail(scripts))) else o)
  {
    assert w.queue[0] in w.queue && forall k | k in w.queue[1..] :: k in w.queue;
  }

  lemma NothingQueued(w: World, scripts: seq<seq<Call>>)
    requires w.queue == []
    ensures Dispatch(w, scripts) == Done(w)
  {
  }

  /** One callback further: what was run before, the callback with what it ran, and the rest of the turn. */
  lemma DispatchOn(log: seq<Entry>, w: World, scripts: seq<seq<Call>>)
    requires w.InRange() && w.queue != []
    ensures w.queue[0] < |w.fdes|
    ensures var o := RunCalls(First(w), Head(scripts));
      var run := Then([Entry(w.queue[0], w.fdes[w.queue[0]], false)], o);
      && |o.world.queue| < |w.queue| && o.world.InRange()
      && Then(log, Dispatch(w, scripts)) ==
         if o.fate.Running? then Then(log + run.log, Dispatch(o.world, Tail(scripts))) else Then(log, run)
  {
    hide RunCalls, First, Dispatch;
    DispatchStep(w, scripts);
  }

  // ---- What a turn keeps ---------------------------------------------------------------

  lemma DroppedSound(w: World, i: nat)
    requires w.Sound() && i < |w.fdes|
    ensures w.Dropped(i).Sound()
  {
    hide NoDups;
    RemoveFirstNoDups(w.queue, i);
  }

  lemma RetargetedSound(w: World, i: nat, events: bv8)
    requires w.Sound() && i < |w.fdes|
    ensures w.Retargeted(i, events).Sound()
  {
    hide NoDups, Cleared;
    RemoveFirstNoDups(w.queue, i);
  }

  lemma InstalledSound(w: World, i: nat, fd: int)
    requires w.Sound() && i < |w.fdes| && w.InStep(i, fd)
    ensures w.Installed(i, fd).Sound()
  {
    hide NoDups, Idle;
  }

  lemma CallOnSound(w: World, i: nat, c: Call)
    requires w.Sound() && i < |w.fdes| && !c.Create? && !c.SubprocExit?
    requires CallOn(w, i, c).fate.Running?
    ensures CallOn(w, i, c).world.Sound()
  {
    hide World.Sound, World.Dropped, World.Retargeted, World.Installed, World.InStep, World.Aborts, Merged, Cleared;
    match c
    case Reinstall(_, fd) => InstalledSound(w, i, fd);
    case Remove(_) => DroppedSound(w, i);
    case Destroy(_) => DroppedSound(w, i);
    case SetTo(_, events) => RetargetedSound(w, i, events);
    case Add(_, events) => RetargetedSound(w, i, Merged(w.fdes[i].wanted, events));
    case Del(_, events) => RetargetedSound(w, i, Cleared(w.fdes[i].wanted, events));
  }

  lemma {:induction false} RunCallSound(w: World, c: Call)
    requires w.Sound() && RunCall(w, c).fate.Running?
    ensures RunCall(w, c).world.Sound()
    decreases c
  {
    hide Wants, Cleared, NoDups, RunCalls, CallOn;
    match c
    case Create(fd) =>
    case SubprocExit(fd, data, body) =>
      var i := w.Owner(fd);
      if i != -1 && !data {
        MergedBits(w.fdes[i].events, READ);
        if !w.fdes[i].pending {
          assert w.Called(i).fdes == w.fdes;
          RunCallsSound(w.Called(i), body);
        }
      }
    case _ =>
      if c.event < |w.fdes| {
        CallOnSound(w, c.event, c);
      }
  }

  lemma MergedBits(events: bv8, bits: bv8)
    requires bits != 0
    ensures Merged(events, bits) != 0
  {
  }

  lemma {:induction false} RunCallsSound(w: World, script: seq<Call>)
    requires w.Sound() && RunCalls(w, script).fate.Running?
    ensures RunCalls(w, script).world.Sound()
    decreases script
  {
    hide World.Sound, RunCall;
    if script != [] {
      RunCallSound(w, script[0]);
      RunCallsSound(RunCall(w, script[0]).world, script[1..]);
    }
  }

  lemma FirstSound(w: World)
    requires w.Sound() && w.queue != []
    ensures First(w).Sound() && w.queue[0] < |w.fdes| && w.queue[0] !in w.queue[1..]
    ensures w.fdes[w.queue[0]].active && w.fdes[w.queue[0]].pending && w.fdes[w.queue[0]].events != 0
  {
    assert w.queue[0] in w.queue && forall k | k in w.queue[1..] :: k in w.queue;
    assert forall k | k in w.queue && k != w.queue[0] :: k in w.queue[1..];
  }

  /** Called while active, with some event signalled. */
  predicate Proper(e: Entry) { e.state.active && e.state.pending && e.state.events != 0 }

  lemma {:induction false} RunCallProper(w: World, c: Call)
    requires w.Sound()
    ensures forall e | e in RunCall(w, c).log :: e.direct && Proper(e)
    decreases c
  {
    hide World.Sound, RunCalls, CallOn;
    if c.SubprocExit? {
      var i := w.Owner(c.fd);
      if i != -1 && !c.data && !w.fdes[i].pending {
        MergedBits(w.fdes[i].events, READ);
        CalledSound(w, i);
        RunCallsProper(w.Called(i), c.body);
      }
    } else if !c.Create? && c.event < |w.fdes| {
      CallOnSilent(w, c.event, c);
    }
  }

  lemma CallOnSilent(w: World, i: nat, c: Call)
    requires i < |w.fdes| && !c.Create? && !c.SubprocExit?
    ensures CallOn(w, i, c).log == []
  {
  }

  lemma CalledSound(w: World, i: nat)
    requires w.Sound() && i < |w.fdes| && !w.fdes[i].pending
    ensures w.Called(i) == w
  {
  }

  lemma {:induction false} RunCallsProper(w: World, script: seq<Call>)
    requires w.Sound()
    ensures forall e | e in RunCalls(w, script).log :: e.direct && Proper(e)
    decreases script
  {
    hide World.Sound, RunCall, Proper;
    if script != [] {
      RunCallProper(w, script[0]);
      if RunCall(w, script[0]).fate.Running? {
        RunCallSound(w, script[0]);
        RunCallsProper(RunCall(w, script[0]).world, script[1..]);
      }
    }
  }

  /** The queued callbacks among those run. */
  function Queued(log: seq<Entry>): seq<nat> {
    if log == [] then [] else (if log[0].direct then [] else [log[0].event]) + Queued(log[1..])
  }

  lemma QueuedCons(e: Entry, log: seq<Entry>)
    ensures Queued([]) == []
    ensures Queued([e] + log) == (if e.direct then [] else [e.event]) + Queued(log)
  {
    assert ([e] + log)[1..] == log;
  }

  lemma {:induction false} QueuedJoin(a: seq<Entry>, b: seq<Entry>)
    ensures Queued(a + b) == Queued(a) + Queued(b)
  {
    hide Queued;
    if a == [] {
      assert a + b == b;
      QueuedCons(Entry(0, Fde(0, 0, false, false, false, 0), false), []);
    } else {
      QueuedJoin(a[1..], b);
      assert a + b == [a[0]] + (a[1..] + b) && a == [a[0]] + a[1..];
      QueuedCons(a[0], a[1..] + b);
      QueuedCons(a[0], a[1..]);
    }
  }

  lemma {:induction false} NoneQueued(log: seq<Entry>)
    requires forall e | e in log :: e.direct
    ensures Queued(log) == []
  {
    if log != [] {
      assert log[0] in log;
      NoneQueued(log[1..]);
    }
  }

  /**
   * Whatever the callbacks do, every callback is run while its fdevent is active and has some event
   * signalled, and no fdevent leaves the queue for its callback twice. A turn that runs to its end
   * leaves nothing pending.
   */
  lemma {:induction false} DispatchKeeps(w: World, scripts: seq<seq<Call>>)
    requires w.Sound()
    ensures var o := Dispatch(w, scripts);
      && (forall e | e in o.log :: Proper(e))
      && NoDups(Queued(o.log)) && (forall i | i in Queued(o.log) :: i in w.queue)
      && (o.fate.Running? ==> o.world.Sound() && o.world.queue == [])
    decreases |w.queue|
  {
    hide World.Sound, NoDups, RunCalls, Queued, Dispatch;
    assert w.InRange() by { SoundInRange(w); }
    NoDupsEmpty();
    NothingRun(w, scripts);
    if w.queue != [] {
      FirstSound(w);
      var script := Head(scripts);
      var o := RunCalls(First(w), script);
      RunCallsProper(First(w), script);
      NoneQueued(o.log);
      DispatchStep(w, scripts);
      var entry := Entry(w.queue[0], w.fdes[w.queue[0]], false);
      if o.fate.Running? {
        RunCallsSound(First(w), script);
        SoundInRange(o.world);
        DispatchKeeps(o.world, Tail(scripts));
        var later := Dispatch(o.world, Tail(scripts)).log;
        QueuedJoin(o.log, later);
        assert Queued(o.log + later) == Queued(later);
        QueuedCons(entry, o.log + later);
        assert [entry] + (o.log + later) == Dispatch(w, scripts).log;
        NoDupsCons(w.queue[0], Queued(later));
        LaterQueued(w, o.world.queue);
      } else {
        QueuedCons(entry, o.log);
        NoDupsCons(w.queue[0], []);
      }
    }
  }

  lemma LaterQueued(w: World, later: seq<nat>)
    requires w.queue != [] && Among(later, w.queue[1..])
    ensures forall k | k in later :: k in w.queue && k in w.queue[1..]
  {
  }

  lemma NothingRun(w: World, scripts: seq<seq<Call>>)
    requires w.InRange()
    ensures w.queue == [] ==> Dispatch(w, scripts) == Done(w)
    ensures Queued([]) == []
    ensures w.queue != [] ==> First(w).queue == w.queue[1..] && w.queue[0] < |w.fdes|
  {
    if w.queue != [] {
      assert w.queue[0] in w.queue;
    }
  }

  lemma NoDupsEmpty()
    ensures NoDups<nat>([]) && forall x: nat :: [x] + [] == [x]
  {
  }

  lemma SoundInRange(w: World)
    requires w.Sound()
    ensures w.InRange()
  {
  }

  /** A call that may reach fdevent `i`, which has descriptor `fd`. */
  predicate Touches(c: Call, i: nat, fd: int)
    decreases c
  {
    match c
    case Create(_) => false
    case SubprocExit(f, _, body) => f == fd || AnyTouches(body, i, fd)
    case _ => c.event == i
  }

  predicate AnyTouches(script: seq<Call>, i: nat, fd: int)
    decreases script
  {
    script != [] && (Touches(script[0], i, fd) || AnyTouches(script[1..], i, fd))
  }

  ghost predicate Spared(w: World, o: Outcome, i: nat) {
    && i < |w.fdes| <= |o.world.fdes| && o.world.fdes[i] == w.fdes[i]
    && (i in w.queue ==> i in o.world.queue) && forall e | e in o.log :: e.event != i
  }

  lemma {:induction false} RunCallSpares(w: World, c: Call, i: nat)
    requires i < |w.fdes| && !Touches(c, i, w.fdes[i].fd)
    ensures Spared(w, RunCall(w, c), i)
    decreases c
  {
    hide RunCalls;
    if c.SubprocExit? {
      var j := w.Owner(c.fd);
      if j != -1 && !c.data && !w.fdes[j].pending {
        RunCallsSpares(w.Called(j), c.body, i);
      }
    } else if !c.Create? {
      StillAmong(w.queue, c.event);
    }
  }

  lemma {:induction false} RunCallsSpares(w: World, script: seq<Call>, i: nat)
    requires i < |w.fdes| && !AnyTouches(script, i, w.fdes[i].fd)
    ensures Spared(w, RunCalls(w, script), i)
    decreases script
  {
    hide RunCall;
    if script != [] {
      RunCallSpares(w, script[0], i);
      if RunCall(w, script[0]).fate.Running? {
        RunCallsSpares(RunCall(w, script[0]).world, script[1..], i);
      }
    }
  }

  /** A queued fdevent that no callback touches is called, once, with the events it was queued with. */
  lemma {:induction false} DispatchReaches(w: World, scripts: seq<seq<Call>>, i: nat)
    requires w.Sound() && i in w.queue && i < |w.fdes| && Dispatch(w, scripts).fate.Running?
    requires forall script | script in scripts :: !AnyTouches(script, i, w.fdes[i].fd)
    ensures var entry, log := Entry(i, w.fdes[i], false), Dispatch(w, scripts).log;
      entry in log && forall e | e in log && e.event == i :: e == entry
    decreases |w.queue|
  {
    hide World.Sound, RunCalls, AnyTouches;
    assert w.InRange() by { SoundInRange(w); }
    FirstSound(w);
    var script := Head(scripts);
    var rest := Tail(scripts);
    assert !AnyTouches(script, i, w.fdes[i].fd) by { NothingTouches(i, w.fdes[i].fd); }
    RunCallsSpares(First(w), script, i);
    var o := RunCalls(First(w), script);
    RunCallsSound(First(w), script);
    if i == w.queue[0] {
      NotAgain(o.world, rest, i);
    } else {
      assert forall s | s in rest :: s in scripts;
      DispatchReaches(o.world, rest, i);
    }
  }

  lemma NothingTouches(i: nat, fd: int)
    ensures !AnyTouches([], i, fd)
  {
  }

  /** An fdevent that is not queued and not touched is not called. */
  lemma {:induction false} NotAgain(w: World, scripts: seq<seq<Call>>, i: nat)
    requires w.Sound() && i !in w.queue && i < |w.fdes|
    requires forall script | script in scripts :: !AnyTouches(script, i, w.fdes[i].fd)
    ensures forall e | e in Dispatch(w, scripts).log :: e.event != i
    decreases |w.queue|
  {
    hide World.Sound, RunCalls, AnyTouches;
    assert w.InRange() by { SoundInRange(w); }
    if w.queue != [] {
      FirstSound(w);
      var script := Head(scripts);
      var rest := Tail(scripts);
      assert !AnyTouches(script, i, w.fdes[i].fd) by { NothingTouches(i, w.fdes[i].fd); }
      RunCallsSpares(First(w), script, i);
      var o := RunCalls(First(w), script);
      if o.fate.Running? {
        RunCallsSound(First(w), script);
        assert forall s | s in rest :: s in scripts;
        NotAgain(o.world, rest, i);
      }
    }
  }

  function Entries(fdes: seq<Fde>, queue: seq<nat>): seq<Entry>
    requires forall i | i in queue :: i < |fdes|
  {
    if queue == [] then [] else
      assert queue[0] in queue && forall i | i in queue[1..] :: i in queue;
      [Entry(queue[0], fdes[queue[0]], false)] + Entries(fdes, queue[1..])
  }

  lemma {:induction false} EntriesAlike(fdes: seq<Fde>, fdes': seq<Fde>, queue: seq<nat>)
    requires forall i | i in queue :: i < |fdes| && i < |fdes'| && fdes[i] == fdes'[i]
    ensures Entries(fdes, queue) == Entries(fdes', queue)
  {
    if queue != [] {
      EntriesAlike(fdes, fdes', queue[1..]);
    }
  }

  lemma NoCalls(w: World)
    ensures RunCalls(w, []) == Done(w)
  {
  }

  /** When the callbacks make no calls, the queue is called in order, each fdevent with its events. */
  lemma {:induction false} DispatchInOrder(w: World, scripts: seq<seq<Call>>)
    requires w.Sound() && forall script | script in scripts :: script == []
    ensures w.InRange() && Dispatch(w, scripts).fate.Running? && Dispatch(w, scripts).log == Entries(w.fdes, w.queue)
    decreases |w.queue|
  {
    hide World.Sound, RunCalls, Dispatch;
    assert w.InRange() by { SoundInRange(w); }
    NothingRun(w, scripts);
    if w.queue != [] {
      FirstSound(w);
      DispatchStep(w, scripts);
      assert scripts != [] ==> scripts[0] in scripts;
      assert Head(scripts) == [];
      NoCalls(First(w));
      var rest := Tail(scripts);
      assert forall s | s in rest :: s in scripts;
      DispatchInOrder(First(w), rest);
      EntriesAlike(w.fdes, First(w).fdes, w.queue[1..]);
    }
  }

  /** Only the shell-exit handler calls an fdevent that is not queued. */
  lemma {:induction false} RunCallsSilent(w: World, script: seq<Call>)
    requires forall c | c in script :: !c.SubprocExit?
    ensures RunCalls(w, script).log == []
    decreases |script|
  {
    if script != [] {
      assert script[0] in script && forall c | c in script[1..] :: c in script;
      if !script[0].Create? && script[0].event < |w.fdes| {
        CallOnSilent(w, script[0].event, script[0]);
      }
      RunCallsSilent(RunCall(w, script[0]).world, script[1..]);
    }
  }

  /** Without the shell-exit handler no fdevent is called twice in a turn. */
  lemma {:induction false} DispatchOnce(w: World, scripts: seq<seq<Call>>)
    requires w.InRange() && forall script, c | script in scripts && c in script :: !c.SubprocExit?
    ensures forall e | e in Dispatch(w, scripts).log :: !e.direct
    decreases |w.queue|
  {
    hide RunCalls;
    if w.queue != [] {
      var script := Head(scripts);
      var rest := Tail(scripts);
      assert scripts != [] ==> script in scripts;
      RunCallsSilent(First(w), script);
      var o := RunCalls(First(w), script);
      if o.fate.Running? {
        assert forall s, c | s in rest && c in s :: s in scripts && !c.SubprocExit?;
        assert w.queue[0] in w.queue && forall k | k in w.queue[1..] :: k in w.queue;
        DispatchOnce(o.world, rest);
      }
    }
  }

  /** With it one can be: a ready subprocess descriptor is called, and called again when the handler reads its exit. */
  lemma CalledTwice()
    ensures var sub, handler := Fde(5, READ, true, true, true, READ), Fde(6, READ, true, true, true, READ);
      var o := Dispatch(World([sub, handler], [0, 1], 256), [[], [Add(1, READ), SubprocExit(5, false, [])]]);
      o.fate.Running? && o.log == [Entry(0, sub, false), Entry(1, handler, false), Entry(0, sub, true)]
  {
    hide RunCalls;
    var sub, handler := Fde(5, READ, true, true, true, READ), Fde(6, READ, true, true, true, READ);
    var w := World([sub, handler], [0, 1], 256);
    var script := [Add(1, READ), SubprocExit(5, false, [])];
    var w1 := First(w);
    assert w1 == World([sub.(events := 0, pending := false), handler], [1], 256);
    NoCalls(w1);
    var w2 := First(w1);
    assert w2 == World([sub.(events := 0, pending := false), handler.(events := 0, pending := false)], [], 256);
    ExitHandled(w2, sub);
    assert [script][0] == script && [[], script][1..] == [script];
    assert Dispatch(w1, [script]).log == [Entry(1, handler, false), Entry(0, sub, true)];
  }

  lemma ExitHandled(w: World, sub: Fde)
    requires sub == Fde(5, READ, true, true, true, READ)
    requires w == World([sub.(events := 0, pending := false), Fde(6, READ, true, false, true, 0)], [], 256)
    ensures RunCalls(w, [Add(1, READ), SubprocExit(5, false, [])]) == Outcome(w, [Entry(0, sub, true)], Running)
  {
    assert READ | READ == READ && 0 | READ == READ;
    assert RunCall(w, Add(1, READ)) == Done(w);
    assert OwnerBelow(w.fdes, 5, 1) == 0;
    assert w.Called(0) == w;
    var exit := SubprocExit(5, false, []);
    assert RunCall(w, exit) == Outcome(w, [Entry(0, sub, true)], Running);
    assert [Add(1, READ), exit][1..] == [exit];
    assert RunCalls(w, [exit]) == Outcome(w, [Entry(0, sub, true)], Running) by {
      NoCalls(w);
      assert [exit][1..] == [];
    }
  }

  // ---- Changing the interest of a pending fdevent ----------------------------------------

  /** Every bit of `a` is a bit of `b`. */
  predicate Within(a: bv8, b: bv8) { a & !b == 0 }

  predicate Apart(a: bv8, b: bv8) { a & b == 0 }

  lemma ClearedBits(events: bv8, wanted: bv8)
    ensures Apart(Cleared(events, wanted), wanted)
    ensures Within(Cleared(events, wanted), wanted) <==> Within(events, wanted)
    ensures Cleared(events, wanted) == events <==> Apart(events, wanted)
    ensures Cleared(events, wanted) == 0 <==> Within(events, wanted)
  {
  }

  /**
   * fdevent_set promises that a pending fdevent no longer signals an unwanted event. What it leaves signalled
   * is exactly the unwanted part: nothing wanted stays, and the promise is kept precisely when all that was
   * signalled is still wanted, in which case the fdevent loses all of it and its place in the queue.
   */
  lemma UnwantedStaysSignalled(w: World, i: nat, events: bv8)
    requires w.Sound() && i < |w.fdes| && w.fdes[i].pending && w.fdes[i].wanted != events
    ensures var was, v := w.fdes[i].events, w.Retargeted(i, events).fdes[i];
      && v.wanted == events && Apart(v.events, events)
      && (Within(v.events, events) <==> Within(was, events))
      && (Within(was, events) <==> i !in w.Retargeted(i, events).queue)
      && (v.events == was <==> Apart(was, events))
  {
    ClearedBits(w.fdes[i].events, events);
    RemoveFirstNoDups(w.queue, i);
  }

  /** An event is wanted after an add if it was or was asked for, after a delete if it was and was not named. */
  lemma InterestAfter(w: World, i: nat, events: bv8, bit: bv8)
    requires i < |w.fdes| && bit in {READ, WRITE, ERROR}
    ensures Wants(CallOn(w, i, SetTo(i, events)).world.fdes[i].wanted, bit) <==> Wants(events, bit)
    ensures Wants(CallOn(w, i, Add(i, events)).world.fdes[i].wanted, bit) <==> Wants(w.fdes[i].wanted, bit) || Wants(events, bit)
    ensures Wants(CallOn(w, i, Del(i, events)).world.fdes[i].wanted, bit) <==> Wants(w.fdes[i].wanted, bit) && !Wants(events, bit)
  {
    OneBit(w.fdes[i].wanted, events, bit);
    hide Merged, Wants;
  }

  lemma OneBit(a: bv8, b: bv8, bit: bv8)
    requires bit in {READ, WRITE, ERROR}
    ensures Wants(Merged(a, b), bit) <==> Wants(a, bit) || Wants(b, bit)
    ensures Wants(Cleared(a, b), bit) <==> Wants(a, bit) && !Wants(b, bit)
  {
  }

  /** What a removal leaves, and on whom a call has no effect: every other fdevent stays as it was. */
  lemma OthersUntouched(w: World, i: nat, c: Call, j: nat)
    requires i < |w.fdes| && j < |w.fdes| && !c.Create? && !c.SubprocExit?
    ensures i != j ==> CallOn(w, i, c).world.fdes[j] == w.fdes[j]
    ensures c.Remove? || (c.Destroy? && w.fdes[i].created) ==>
      var v := CallOn(w, i, c).world.fdes[i]; !v.active && !v.pending && v.wanted == 0 && v.events == 0 && v.fd == w.fdes[i].fd
    ensures c.Reinstall? && !CallOn(w, i, c).fate.Aborted? ==> CallOn(w, i, c).world.fdes[i] == Fde(c.fd, 0, true, false, false, 0)
    ensures CallOn(w, i, c).fate.Aborted? <==>
      (c.Destroy? && !w.fdes[i].created) || (c.Reinstall? && (c.fd < 0 || (c.fd >= w.max && c.fd > 32000)))
  {
  }

  /**
   * The shell-exit handler: nothing without an fdevent on the descriptor or with input left on it; one that is pending is
   * signalled a read and keeps its place, any other is called at once with a read.
   */
  lemma ExitSignals(w: World, fd: int, data: bool, body: seq<Call>)
    ensures var i, o := w.Owner(fd), RunCall(w, SubprocExit(fd, data, body));
      && (i == -1 || data ==> o == Done(w))
      && (i >= 0 && !data && w.fdes[i].pending ==>
           o == Done(w.(fdes := o.world.fdes)) && o.world.fdes == w.fdes[i := w.fdes[i].(events := w.fdes[i].events | READ)])
      && (i >= 0 && !data && !w.fdes[i].pending ==>
           o.log != [] && o.log[0].direct && o.log[0].event == i && o.log[0].state.events == w.fdes[i].events | READ)
  {
    hide RunCalls;
  }

  /** A new fdevent is active and waits for nothing; a negative descriptor, or one past 32000 and the table, aborts. */
  lemma Created(w: World, fd: int)
    ensures RunCall(w, Create(fd)).fate.Aborted? <==> fd < 0 || (fd >= w.max && fd > 32000)
    ensures var o := RunCall(w, Create(fd));
      if o.fate.Aborted? then o.world == w
      else o.world.fdes == w.fdes + [Fde(fd, 0, true, false, true, 0)] && o.world.queue == w.queue && fd < o.world.max
  {
  }

  /** A pending read stays signalled when the interest moves to writing, and is lost when writing is added. */
  lemma PendingRead()
    ensures var w := World([Fde(5, READ, true, true, true, READ)], [0], 256);
      && RunCall(w, SetTo(0, WRITE)) == Done(World([Fde(5, WRITE, true, true, true, READ)], [0], 256))
      && RunCall(w, Add(0, WRITE)) == Done(World([Fde(5, READ | WRITE, true, false, true, 0)], [], 256))
  {
    assert READ & !WRITE == READ && READ & !(READ | WRITE) == 0;
    assert RemoveFirst([0], 0) == [];
  }

  // ---- Descriptors without a bit ----------------------------------------------------------

  /** Every fdevent that waits for something has a bit in the descriptor sets. */
  predicate InSets(w: World) {
    forall i: nat | i < |w.fdes| && w.fdes[i].active && !Idle(w.fdes[i].wanted) :: w.fdes[i].fd < FD_SETSIZE
  }

  /** The checks let descriptors through that have none. */
  lemma BeyondSets(fd: int)
    requires 1024 <= fd <= 32000
    ensures var o := RunCalls(World([], [], 0), [Create(fd), Add(0, READ)]); o.fate.Running? && !InSets(o.world)
  {
    var w0, calls := World([], [], 0), [Create(fd), Add(0, READ)];
    var w1 := RunCall(w0, calls[0]).world;
    assert calls[1..] == [Add(0, READ)] && [Add(0, READ)][1..] == [];
    assert w1.fdes == [Fde(fd, 0, true, false, true, 0)];
    assert 0 | READ == READ && Wants(READ, READ);
    var w2 := RunCall(w1, Add(0, READ)).world;
    assert w2.fdes == [Fde(fd, READ, true, false, true, 0)];
    NoCalls(w2);
    assert RunCalls(w1, [Add(0, READ)]).world == w2;
    assert !InSets(w2) by { assert w2.fdes[0].active && !Idle(w2.fdes[0].wanted); }
  }

  /** A call that installs on a descriptor past the sets. */
  predicate Beyond(c: Call)
    decreases c
  {
    match c
    case Create(fd) => fd >= FD_SETSIZE
    case Reinstall(_, fd) => fd >= FD_SETSIZE
    case SubprocExit(_, _, body) => AnyBeyond(body)
    case _ => false
  }

  predicate AnyBeyond(script: seq<Call>)
    decreases script
  {
    script != [] && (Beyond(script[0]) || AnyBeyond(script[1..]))
  }

  /** Small descriptors, active or not. */
  predicate AllSmall(w: World) { forall i: nat | i < |w.fdes| :: w.fdes[i].fd < FD_SETSIZE }

  /** Without such a call every fdevent stays within the sets. */
  lemma {:induction false} RunCallSmall(w: World, c: Call)
    requires AllSmall(w) && !Beyond(c)
    ensures AllSmall(RunCall(w, c).world) && InSets(RunCall(w, c).world)
    decreases c
  {
    hide RunCalls;
    if c.SubprocExit? {
      var i := w.Owner(c.fd);
      if i != -1 && !c.data && !w.fdes[i].pending {
        RunCallsSmall(w.Called(i), c.body);
      }
    }
  }

  lemma {:induction false} RunCallsSmall(w: World, script: seq<Call>)
    requires AllSmall(w) && !AnyBeyond(script)
    ensures AllSmall(RunCalls(w, script).world) && InSets(RunCalls(w, script).world)
    decreases script
  {
    hide RunCall;
    if script != [] {
      RunCallSmall(w, script[0]);
      if RunCall(w, script[0]).fate.Running? {
        RunCallsSmall(RunCall(w, script[0]).world, script[1..]);
      }
    }
  }
}
