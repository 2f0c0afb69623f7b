/**
 * adb's event loop, select variant: a table of file descriptor events, three descriptor
 * sets, state bits and an intrusive pending ring that have to stay in step.
 */
module FdEvent {
  import opened Util
  import opened Ring
  import opened FdTurn

  type Event = Node<Fde>

  /** What select() reports: an error, or the ready descriptors out of those it was asked about. */
  datatype SelectResult = Interrupted | BadDescriptor | OtherError | Ready(r: set<int>, w: set<int>, e: set<int>)

  lemma NoWants()
    ensures forall bit :: !Wants(0, bit)
  {
  }

  class EventLoop {
    /** list_pending: the sentinel of the pending ring. */
    const list: Event
    ghost var ring: seq<Event>
    /** fd_table; its length is fd_table_max. */
    var table: seq<Node?<Fde>>
    var readFds: set<int>
    var writeFds: set<int>
    var errorFds: set<int>
    var selectN: int
    /** Every fdevent that was ever installed. */
    ghost var all: set<Event>
    /** The descriptors passed to adb_close, in order. */
    var closed: seq<int>

    ghost predicate Links()
      reads this`ring, this`all, list`next, list`prev, ring`next, ring`prev
    {
      IsRing(list, ring) && list !in all && forall e | e in ring :: e in all
    }

    /** An fdevent is in the ring exactly when its PENDING bit is set and some event is signalled, and only active ones are. */
    ghost predicate Flags()
      reads this`all, this`ring, all`val
    {
      forall e | e in all :: (e.val.pending <==> e in ring) && (e.val.pending <==> e.val.events != 0) && (e.val.pending ==> e.val.active)
    }

    ghost predicate Registered(fd: int)
      reads this`table
    {
      0 <= fd < |table| && table[fd] != null
    }

    /** fd_table holds exactly the active fdevents, each under its own descriptor and below select_n. */
    ghost predicate Table()
      reads this`table, this`selectN, this`all, all`val
    {
      && 0 <= selectN <= |table|
      && (forall e | e in all && e.val.active :: 0 <= e.val.fd < |table| && table[e.val.fd] == e)
      && (forall i | Registered(i) :: table[i] in all && table[i].val.active && table[i].val.fd == i && i < selectN)
    }

    /** A descriptor set holds exactly the registered descriptors whose fdevent wants the event. */
    ghost predicate Mirrors(fds: set<int>, bit: bv8)
      reads this`table, table`val
    {
      forall fd: int :: fd in fds <==> Registered(fd) && Wants(table[fd].val.wanted, bit)
    }

    ghost predicate Sets()
      reads this`table, this`readFds, this`writeFds, this`errorFds, table`val
    {
      Mirrors(readFds, READ) && Mirrors(writeFds, WRITE) && Mirrors(errorFds, ERROR)
    }

    ghost predicate Valid()
      reads this, list`next, list`prev, ring`next, ring`prev, all`val, table`val
    {
      Links() && Flags() && Table() && Sets()
    }

    constructor ()
      ensures Valid() && all == {} && ring == [] && table == [] && closed == []
    {
      list := new Node<Fde>(Fde(-1, 0, false, false, false, 0));
      ring, table, all, closed := [], [], {}, [];
      readFds, writeFds, errorFds, selectN := {}, {}, {}, 0;
      new;
      list.next := list;
      list.prev := list;
    }

    // ---- The pending ring --------------------------------------------------------------

    method PlistEnqueue(node: Event)
      requires Links() && node in all && node !in ring
      modifies this`ring, list`next, list`prev, ring`next, ring`prev, node`next, node`prev
      ensures Links() && ring == old(ring) + [node]
    {
      assert list == Around(list, ring)[|ring| + 1];
      LinkBefore(list, ring, |ring|, list, node);
      assert ring[..|ring|] + [node] + ring[|ring|..] == ring + [node];
      ring := ring + [node];
    }

    method PlistRemove(node: Event)
      requires Links() && node in ring
      modifies this`ring, list`next, list`prev, ring`next, ring`prev
      ensures Links() && node.next == null && node.prev == null
      ensures ring == RemoveFirst(old(ring), node) && forall e :: e in ring <==> e in old(ring) && e != node
    {
      hide IsRing, RemoveFirst;
      ghost var k :| 0 <= k < |ring| && ring[k] == node;
      Without(list, ring, k);
      FirstAt(list, ring, k);
      EraseIsRemove(ring, k);
      Detach(list, ring, k, node);
      ring := ring[..k] + ring[k + 1..];
    }

    /** Takes the oldest pending fdevent out of the ring; its PENDING bit is still set. */
    method PlistDequeue() returns (r: Node?<Fde>)
      requires Links()
      modifies this`ring, list`next, list`prev, ring`next, ring`prev
      ensures Links()
      ensures old(ring) == [] ==> r == null && ring == []
      ensures old(ring) != [] ==> r == old(ring)[0] && ring == old(ring)[1..]
    {
      hide IsRing;
      NextAt(list, ring, 0);
      PositionsDiffer(list, ring);
      var node := list.next;
      if node == list {
        return null;
      }
      assert ring[..0] + ring[1..] == ring[1..];
      Detach(list, ring, 0, node);
      ring := ring[1..];
      r := node;
    }

    // ---- Registration ------------------------------------------------------------------

    /** Doubles the table until the descriptor fits; new slots are empty. */
    method GrowTable(fd: int)
      modifies this`table
      ensures |table| == GrownMax(|old(table)|, fd) && table[..|old(table)|] == old(table)
      ensures forall i | |old(table)| <= i < |table| :: table[i] == null
    {
      if fd >= |table| {
        var max := |table|;
        if max == 0 {
          max := 256;
        }
        ghost var start := max;
        while max <= fd
          invariant |table| <= max && 0 < max && Doubled(start, fd) == Doubled(max, fd)
          decreases fd - max
        {
          max := max * 2;
        }
        table := table + seq(max - |table|, _ => null);
      }
    }

    /** fdevent_register past its two FATAL checks: whatever is in the slot is overwritten. */
    method FdRegister(node: Event)
      requires 0 <= node.val.fd
      modifies this`table
      ensures |table| == GrownMax(|old(table)|, node.val.fd) && table[node.val.fd] == node
      ensures forall i | 0 <= i < |table| && i != node.val.fd :: table[i] == if i < |old(table)| then old(table)[i] else null
    {
      GrowTable(node.val.fd);
      table := table[node.val.fd := node];
    }

    /** The fdevent is not in use and nothing is registered on the descriptor. */
    ghost predicate Free(node: Event, fd: int)
      reads this`table, this`all, node`val
    {
      !(node in all && node.val.active) && !Registered(fd)
    }

    /** The fdevent is registered on that very descriptor, is not pending and waits for nothing. */
    ghost predicate Resting(node: Event, fd: int)
      reads this`table, node`val
    {
      Registered(fd) && table[fd] == node && !node.val.pending && Idle(node.val.wanted)
    }

    /**
     * fdevent_install past the FATAL checks of fdevent_register. Nothing checks that the descriptor is free
     * or the fdevent out of use; table, sets, flags and ring stay in step exactly when it is.
     */
    method Install(node: Event, fd: int)
      requires Valid() && node != list && 0 <= fd
      modifies this`table, this`selectN, this`all, node
      ensures all == old(all) + {node} && node.val == Fde(fd, 0, true, false, false, 0)
      ensures |table| == GrownMax(|old(table)|, fd) && table[fd] == node
      ensures forall i | 0 <= i < |table| && i != fd :: table[i] == if i < |old(table)| then old(table)[i] else null
      ensures 0 <= selectN <= |table|
      ensures Valid() <==> old(Free(node, fd) || Resting(node, fd))
      ensures old(node !in ring) ==> Links() && Flags()
    {
      hide Wants, IsRing, Idle;
      node.next := null;
      node.prev := null;
      node.val := Fde(fd, 0, true, false, false, 0);
      all := all + {node};
      FdRegister(node);
      if fd >= selectN {
        selectN := fd + 1;
      }
      LinksWith(node);
      if old(Free(node, fd)) || old(Resting(node, fd)) {
        StaysInStep(node);
      } else {
        FallsOutOfStep(node);
      }
    }

    /** Clearing the links of an fdevent that is not pending does not reach the ring. */
    twostate lemma LinksWith(node: Event)
      requires old(Valid()) && node != list && all == old(all) + {node} && ring == old(ring)
      requires node !in ring ==>
        forall e | e == list || e in ring :: e.next == old(e.next) && e.prev == old(e.prev)
      requires forall e | e in old(all) && e != node :: e.val == old(e.val)
      requires !node.val.pending && node.val.events == 0
      ensures node !in ring ==> Links() && Flags()
    {
    }

    twostate lemma StaysInStep(node: Event)
      requires old(Valid()) && var fd := node.val.fd; old(Free(node, fd)) || old(Resting(node, fd))
      requires Links() && Flags() && all == old(all) + {node}
      requires readFds == old(readFds) && writeFds == old(writeFds) && errorFds == old(errorFds)
      requires node.val == Fde(node.val.fd, 0, true, false, false, 0) && forall e | e in old(all) && e != node :: e.val == old(e.val)
      requires |table| >= |old(table)| && 0 <= node.val.fd < |table| && table[node.val.fd] == node
      requires forall i | 0 <= i < |table| && i != node.val.fd :: table[i] == if i < |old(table)| then old(table)[i] else null
      requires old(selectN) <= selectN <= |table| && node.val.fd < selectN
      ensures Valid()
    {
      hide Links, Flags, Wants;
      NoWants();
    }

    /** An fdevent that stays in the ring without its bit, two active ones on a descriptor, or a stale entry or set. */
    twostate lemma FallsOutOfStep(node: Event)
      requires old(Valid()) && var fd := node.val.fd; !old(Free(node, fd)) && !old(Resting(node, fd))
      requires all == old(all) + {node} && ring == old(ring)
      requires readFds == old(readFds) && writeFds == old(writeFds) && errorFds == old(errorFds)
      requires node.val == Fde(node.val.fd, 0, true, false, false, 0) && forall e | e in old(all) && e != node :: e.val == old(e.val)
      requires |table| >= |old(table)| && 0 <= node.val.fd < |table| && table[node.val.fd] == node
      requires forall i | 0 <= i < |table| && i != node.val.fd :: table[i] == if i < |old(table)| then old(table)[i] else null
      ensures !Valid()
    {
      hide Links, Wants;
      NoWants();
    }

    // ---- Removal -----------------------------------------------------------------------

    /** fdevent_disconnect: still counts the fdevent being removed, so select_n may stay higher than needed. */
    method Disconnect(fd: int)
      requires 0 <= selectN <= |table|
      modifies this`readFds, this`writeFds, this`errorFds, this`selectN
      ensures readFds == old(readFds) - {fd} && writeFds == old(writeFds) - {fd} && errorFds == old(errorFds) - {fd}
      ensures old(Table()) && Registered(fd) ==>
        selectN <= |table| && forall i | 0 <= i < |table| && table[i] != null :: i < selectN
      ensures selectN > 0
    {
      readFds, writeFds, errorFds := readFds - {fd}, writeFds - {fd}, errorFds - {fd};
      var n := 0;
      for i := 0 to selectN
        invariant n == 0 || 0 < n < i
        invariant forall k | 0 <= k < i && table[k] != null :: k <= n
      {
        if table[i] != null {
          n := i;
        }
      }
      selectN := n + 1;
    }

    ghost predicate Listed(node: Event)
      reads this`table, node`val
    {
      0 <= node.val.fd < |table| && table[node.val.fd] == node
    }

    /** fdevent_unregister; `fatal` is one of its two FATAL checks. */
    method FdUnregister(node: Event) returns (fatal: bool)
      modifies this`table, this`closed
      ensures fatal <==> !old(Listed(node))
      ensures !fatal ==> table == old(table)[node.val.fd := null]
      ensures !fatal ==> closed == old(closed) + if Wants(node.val.wanted, DONT_CLOSE) then [] else [node.val.fd]
    {
      if node.val.fd < 0 || node.val.fd >= |table| || table[node.val.fd] != node {
        return true;
      }
      table := table[node.val.fd := null];
      if !Wants(node.val.wanted, DONT_CLOSE) {
        closed := closed + [node.val.fd];
      }
      return false;
    }

    /** fdevent_remove: aborts exactly on an active fdevent that fd_table does not hold, so never in a valid state. */
    method Remove(node: Event) returns (fatal: bool)
      requires Links() && Flags() && node in all && 0 <= selectN <= |table|
      modifies this, list`next, list`prev, ring`next, ring`prev, node`val
      ensures fatal <==> old(node.val.active && !Listed(node))
      ensures old(Valid()) ==> !fatal && Valid()
      ensures !fatal ==> all == old(all) && node.val == Fde(old(node.val.fd), 0, false, false, false, 0)
      ensures !fatal ==> ring == if old(node.val.pending) then RemoveFirst(old(ring), node) else old(ring)
      ensures forall e :: e in ring <==> e in old(ring) && e != node
      ensures !fatal ==> table == if old(node.val.active) then old(table)[node.val.fd := null] else old(table)
      ensures !fatal ==>
        closed == old(closed) + if old(node.val.active && !Wants(node.val.wanted, 0x80)) then [node.val.fd] else []
    {
      hide Valid, Wants, IsRing, RemoveFirst;
      ActiveListed(node);
      if node.val.pending {
        Unqueue(node);
      }
      fatal := Deactivate(node);
    }

    lemma ActiveListed(node: Event)
      requires node in all
      ensures Valid() ==> (node.val.active ==> Listed(node)) && 0 <= selectN <= |table|
    {
    }

    /** Takes a pending fdevent out of the ring and clears its bit. */
    method Unqueue(node: Event)
      requires Links() && Flags() && node in all && node.val.pending
      modifies this`ring, list`next, list`prev, ring`next, ring`prev, node`val
      ensures Links() && Flags() && (old(Valid()) ==> Valid())
      ensures node.val == old(node.val).(pending := false, events := 0)
      ensures ring == RemoveFirst(old(ring), node) && forall e :: e in ring <==> e in old(ring) && e != node
    {
      hide IsRing, Wants, RemoveFirst, Table, Sets;
      PlistRemove(node);
      node.val := node.val.(pending := false, events := 0);
      assert Flags();
      if old(Valid()) {
        SameInterest(node);
      }
    }

    /** Signalling has nothing to do with table and sets. */
    twostate lemma SameInterest(node: Event)
      requires old(Table()) && old(Sets()) && table == old(table) && selectN == old(selectN) && all == old(all)
      requires readFds == old(readFds) && writeFds == old(writeFds) && errorFds == old(errorFds)
      requires node.val == old(node.val).(events := node.val.events, pending := node.val.pending)
      requires forall e | e in all && e != node :: e.val == old(e.val)
      ensures Table() && Sets()
    {
      hide Wants;
    }

    /** The rest of fdevent_remove, once the fdevent is out of the pending ring. */
    method Deactivate(node: Event) returns (fatal: bool)
      requires Flags() && node in all && !node.val.pending && 0 <= selectN <= |table|
      modifies this`table, this`closed, this`readFds, this`writeFds, this`errorFds, this`selectN, node`val
      ensures fatal <==> old(node.val.active && !Listed(node))
      ensures old(Valid()) ==> !fatal && Valid()
      ensures !fatal ==> node.val == Fde(old(node.val.fd), 0, false, false, false, 0)
      ensures !fatal ==> table == if old(node.val.active) then old(table)[node.val.fd := null] else old(table)
      ensures !fatal ==>
        closed == old(closed) + if old(node.val.active && !Wants(node.val.wanted, DONT_CLOSE)) then [node.val.fd] else []
    {
      hide Links, Flags, Sets, Wants, Table;
      fatal := false;
      if old(Valid()) {
        ActiveListed(node);
        SelectBound();
        assert forall i | 0 <= i < |table| && table[i] != null :: Registered(i);
      }
      if node.val.active {
        Disconnect(node.val.fd);
        fatal := FdUnregister(node);
        if fatal {
          return;
        }
      }
      node.val := Fde(node.val.fd, 0, false, false, false, 0);
      if old(Valid()) {
        FlagsWithout(node);
        TableWithout(node);
        SetsWithout(node);
      }
    }

    /** The flags of the others stay as they were. */
    twostate lemma FlagsWithout(node: Event)
      requires old(Flags()) && node in all && all == old(all) && ring == old(ring)
      requires !old(node.val.pending) && !node.val.pending && node.val.events == 0
      requires forall e | e in all && e != node :: e.val == old(e.val)
      ensures Flags()
    {
    }

    twostate lemma TableWithout(node: Event)
      requires old(Table()) && old(node in all) && all == old(all) && !node.val.active
      requires forall e | e in all && e != node :: e.val == old(e.val)
      requires 0 <= selectN <= |table| && forall i | 0 <= i < |old(table)| && old(table)[i] != null :: i < selectN
      requires table == if old(node.val.active) then old(table)[old(node.val.fd) := null] else old(table)
      ensures Table()
    {
    }

    /** With its descriptor out of table and sets an event wants nothing. */
    twostate lemma SetsWithout(node: Event)
      requires old(Sets()) && old(Table()) && old(node in all) && node.val.wanted == 0
      requires forall e | e in old(all) && e != node :: e.val == old(e.val)
      requires old(node.val.active) ==> table == old(table)[old(node.val.fd) := null]
      requires old(node.val.active) ==>
        (readFds == old(readFds) - {old(node.val.fd)} && writeFds == old(writeFds) - {old(node.val.fd)} && errorFds == old(errorFds) - {old(node.val.fd)})
      requires !old(node.val.active) ==>
        (table == old(table) && readFds == old(readFds) && writeFds == old(writeFds) && errorFds == old(errorFds))
      ensures Sets()
    {
      hide Wants;
      NoWants();
    }

    // ---- Changing interest -------------------------------------------------------------

    /** fdevent_update on the three descriptor sets. */
    method UpdateSets(fd: int, events: bv8)
      modifies this`readFds, this`writeFds, this`errorFds
      ensures readFds == if Wants(events, READ) then old(readFds) + {fd} else old(readFds) - {fd}
      ensures writeFds == if Wants(events, WRITE) then old(writeFds) + {fd} else old(writeFds) - {fd}
      ensures errorFds == if Wants(events, ERROR) then old(errorFds) + {fd} else old(errorFds) - {fd}
    {
      if Wants(events, READ) {
        readFds := readFds + {fd};
      } else {
        readFds := readFds - {fd};
      }
      if Wants(events, WRITE) {
        writeFds := writeFds + {fd};
      } else {
        writeFds := writeFds - {fd};
      }
      if Wants(events, ERROR) {
        errorFds := errorFds + {fd};
      } else {
        errorFds := errorFds - {fd};
      }
    }

    /** Every member of the three sets has a bit in an fd_set. */
    ghost predicate SetsFit()
      reads this`readFds, this`writeFds, this`errorFds
    {
      forall fd | fd in readFds || fd in writeFds || fd in errorFds :: fd < FD_SETSIZE
    }

    /** The mirror of table and sets can be kept in an fd_set exactly while every fdevent that waits has a small descriptor. */
    lemma SetsFitIff()
      requires Valid()
      ensures SetsFit() <==> forall e | e in all && e.val.active && !Idle(e.val.wanted) :: e.val.fd < FD_SETSIZE
    {
      hide Links, Flags, Wants;
      if SetsFit() {
        forall e | e in all && e.val.active && !Idle(e.val.wanted) ensures e.val.fd < FD_SETSIZE {
          assert Registered(e.val.fd) && table[e.val.fd] == e;
        }
      }
    }

    /** fdevent_set; on a pending fdevent it clears the very bits that were just requested. */
    method SetEvents(node: Event, events: bv8)
      requires Valid() && node in all
      modifies this`ring, this`readFds, this`writeFds, this`errorFds, list`next, list`prev, ring`next, ring`prev, node`val
      ensures Valid()
      ensures node.val == Interest(old(node.val), events)
      ensures node.val.active ==> node.val.wanted == events && Selects(node.val.fd, events)
      ensures ring == if old(node.val.pending) && !node.val.pending then RemoveFirst(old(ring), node) else old(ring)
    {
      hide Valid, Cleared, RemoveFirst, Selects;
      if node.val.wanted == events {
        SelectsWanted(node);
        return;
      }
      Retarget(node, events);
      if node.val.pending {
        DropUnwanted(node, events);
      }
      SelectsWanted(node);
    }

    /** The next select asks about the descriptor exactly what is wanted. */
    ghost predicate Selects(fd: int, events: bv8)
      reads this`readFds, this`writeFds, this`errorFds
    {
      && (fd in readFds <==> Wants(events, READ))
      && (fd in writeFds <==> Wants(events, WRITE))
      && (fd in errorFds <==> Wants(events, ERROR))
    }

    lemma SelectsWanted(node: Event)
      requires Valid() && node in all
      ensures node.val.active ==> Selects(node.val.fd, node.val.wanted)
    {
      hide Links, Flags, Wants;
    }

    /** fdevent_update on an active fdevent, and its new interest: the descriptor sets mirror the table again. */
    method Retarget(node: Event, events: bv8)
      requires Valid() && node in all
      modifies this`readFds, this`writeFds, this`errorFds, node`val
      ensures Valid() && node.val == old(node.val).(wanted := events)
    {
      hide Links, Wants;
      if node.val.active {
        UpdateSets(node.val.fd, events);
      }
      node.val := node.val.(wanted := events);
      assert Flags();
      assert Table();
    }

    method DropUnwanted(node: Event, events: bv8)
      requires Valid() && node in all && node.val.pending
      modifies this`ring, list`next, list`prev, ring`next, ring`prev, node`val
      ensures Valid()
      ensures var left := Cleared(old(node.val.events), events);
        && node.val == old(node.val).(events := left, pending := left != 0)
        && ring == if left == 0 then RemoveFirst(old(ring), node) else old(ring)
    {
      hide Links, Wants, Cleared, RemoveFirst;
      var left := Cleared(node.val.events, events);
      if left == 0 {
        Unqueue(node);
      } else {
        node.val := node.val.(events := left);
        assert Flags();
      }
    }

    // ---- After select ------------------------------------------------------------------

    /** fdevent_fd_check: marks the registered descriptors that are no longer open. */
    method FdCheck(fds: set<int>, bad: set<int>) returns (fds': set<int>, n: nat)
      requires Table()
      ensures fds' == fds + BadBelow(selectN, bad) && n == |BadBelow(selectN, bad)|
    {
      hide BadBelow;
      NoneBelow(bad);
      fds', n := fds, 0;
      assert fds + {} == fds;
      for i := 0 to selectN
        invariant fds' == fds + BadBelow(i, bad) && n == |BadBelow(i, bad)|
      {
        BadStep(i, bad);
        if table[i] != null && i in bad {
          fds', n := fds' + {i}, n + 1;
        }
      }
    }

    /** The registered descriptors below `n` that are bad. */
    ghost function BadBelow(n: int, bad: set<int>): set<int>
      reads this
    {
      set i | 0 <= i < n && i in bad && Registered(i)
    }

    lemma NoneBelow(bad: set<int>)
      ensures BadBelow(0, bad) == {}
    {
    }

    lemma BadStep(i: nat, bad: set<int>)
      ensures Registered(i) && i in bad ==> BadBelow(i + 1, bad) == BadBelow(i, bad) + {i}
      ensures Registered(i) && i in bad ==> |BadBelow(i + 1, bad)| == |BadBelow(i, bad)| + 1
      ensures !(Registered(i) && i in bad) ==> BadBelow(i + 1, bad) == BadBelow(i, bad)
    {
      var below := BadBelow(i, bad);
      if Registered(i) && i in bad {
        assert BadBelow(i + 1, bad) == below + {i} && i !in below;
      } else {
        assert BadBelow(i + 1, bad) == below;
      }
    }

    /** Records events on an fdevent and queues it unless it is queued already. */
    method Signal(node: Event, bits: bv8)
      requires Valid() && node in all && node.val.active && bits != 0
      modifies this`ring, list`next, list`prev, ring`next, ring`prev, node`next, node`prev, node`val
      ensures Valid()
      ensures node.val == old(node.val).(events := Merged(old(node.val.events), bits), pending := true)
      ensures ring == if old(node.val.pending) then old(ring) else old(ring) + [node]
    {
      hide Links, Wants, Merged;
      MergedBits(node.val.events, bits);
      if node.val.pending {
        node.val := node.val.(events := Merged(node.val.events, bits));
        assert Flags();
      } else {
        Queue(node, Merged(node.val.events, bits));
      }
    }

    method Queue(node: Event, events: bv8)
      requires Valid() && node in all && node.val.active && !node.val.pending && events != 0
      modifies this`ring, list`next, list`prev, ring`next, ring`prev, node`next, node`prev, node`val
      ensures Valid() && node.val == old(node.val).(events := events, pending := true) && ring == old(ring) + [node]
    {
      hide IsRing, Wants, Table, Sets;
      PlistEnqueue(node);
      node.val := node.val.(events := events, pending := true);
      assert Flags();
      SameInterest(node);
    }

    /** One round of the scan: the number of result bits at `i`, whose fdevent is signalled if there are any. */
    method ScanOne(i: int, rfd: set<int>, wfd: set<int>, efd: set<int>) returns (bits: nat)
      requires Valid() && 0 <= i < selectN
      requires i in rfd || i in wfd || i in efd ==> Registered(i)
      modifies this`ring, list`next, list`prev, all`next, all`prev, (if Registered(i) then {table[i]} else {})`val
      ensures Valid()
      ensures bits == (if i in rfd then 1 else 0) + (if i in wfd then 1 else 0) + (if i in efd then 1 else 0)
      ensures Registered(i) ==> table[i].val == Touched(old(table[i].val), EventBits(i, rfd, wfd, efd))
      ensures forall k | Registered(k) && k != i :: table[k].val == old(table[k].val)
      ensures ring == old(ring) +
        if (i in rfd || i in wfd || i in efd) && !old(table[i].val.pending) then [table[i]] else []
    {
      hide Flags, Sets, EventBits, Merged, IsRing;
      EventBitsNonzero(i, rfd, wfd, efd);
      bits := 0;
      if i in rfd {
        bits := bits + 1;
      }
      if i in wfd {
        bits := bits + 1;
      }
      if i in efd {
        bits := bits + 1;
      }
      var events := EventBits(i, rfd, wfd, efd);
      if events != 0 {
        var node := table[i];
        assert node != null;
        Signal(node, events);
      }
    }

    /** The values of the registered fdevents; anything at the empty slots. */
    ghost function Values(): (vs: seq<Fde>)
      reads this, table`val
      ensures |vs| == |table| && forall k | Registered(k) :: vs[k] == table[k].val
    {
      Snapshot(table)
    }

    /**
     * The scan over the result sets stops as soon as `count` set bits have been seen; it does what a
     * scan of the whole table would do, and never meets a descriptor without an fdevent.
     */
    method Scan(rfd: set<int>, wfd: set<int>, efd: set<int>, count: nat)
      requires Valid()
      requires forall fd | fd in rfd || fd in wfd || fd in efd :: Registered(fd)
      requires count == |rfd| + |wfd| + |efd|
      modifies this`ring, list`next, list`prev, all`next, all`prev, all`val
      ensures Valid()
      ensures forall k | Registered(k) :: table[k].val == Touched(old(Values())[k], EventBits(k, rfd, wfd, efd))
      ensures forall k | Registered(k) :: Signalled(old(Values())[k], table[k].val, k in rfd, k in wfd, k in efd)
      ensures forall e | e in all && !old(e.val.active) :: e.val == old(e.val)
      ensures ring == old(ring) + Newly(table, Hits(table, old(Values()), rfd, wfd, efd), |table|)
    {
      hide Valid, EventBits, Touched, Left, Hits, Newly, Signalled;
      SelectBound();
      ghost var start := Values();
      ghost var fds := Hits(table, start, rfd, wfd, efd);
      var n, i := count, 0;
      LeftAll(rfd, wfd, efd);
      NoneNew(table, start, rfd, wfd, efd);
      while i < selectN && n > 0
        invariant 0 <= i <= selectN && Valid()
        invariant n == Left(rfd, wfd, efd, i)
        invariant forall k | 0 <= k < i && Registered(k) :: table[k].val == Touched(start[k], EventBits(k, rfd, wfd, efd))
        invariant forall k | i <= k && Registered(k) :: table[k].val == start[k]
        invariant forall e | e in all && !old(e.val.active) :: e.val == old(e.val)
        invariant ring == old(ring) + Newly(table, fds, i)
      {
        LeftStep(rfd, wfd, efd, i);
        NewlyNext(table, start, rfd, wfd, efd, i);
        var bits := ScanOne(i, rfd, wfd, efd);
        n := n - bits;
        i := i + 1;
      }
      LeftStep(rfd, wfd, efd, i);
      HitsStop(table, start, rfd, wfd, efd, i);
      forall k | i <= k && Registered(k) ensures table[k].val == Touched(start[k], EventBits(k, rfd, wfd, efd)) {
        NotTouched(start[k], k, rfd, wfd, efd);
      }
      forall k | Registered(k) ensures Signalled(start[k], table[k].val, k in rfd, k in wfd, k in efd) {
        TouchedSignals(start[k], k, rfd, wfd, efd);
      }
    }

    /** The result sets the scan works on: after a bad descriptor or an empty result, the closed ones count as readable. */
    ghost function ScanSets(sel: SelectResult, bad: set<int>): (set<int>, set<int>, set<int>)
      reads this`table
    {
      match sel
      case Interrupted => ({}, {}, {})
      case OtherError => ({}, {}, {})
      case BadDescriptor => (set i | 0 <= i < |table| && table[i] != null && i in bad, {}, {})
      case Ready(r, w, e) =>
        if r == {} && w == {} && e == {} then (set i | 0 <= i < |table| && table[i] != null && i in bad, {}, {}) else (r, w, e)
    }

    /** fdevent_process once select has answered. `bad` is the set of descriptors on which fcntl fails. */
    method ScanResults(sel: SelectResult, bad: set<int>)
      requires Valid()
      requires sel.Ready? ==> sel.r <= readFds && sel.w <= writeFds && sel.e <= errorFds
      modifies this`ring, list`next, list`prev, all`next, all`prev, all`val
      ensures Valid()
      ensures var (r, w, e) := ScanSets(sel, bad);
        && (forall k | Registered(k) :: table[k].val == Touched(old(Values())[k], EventBits(k, r, w, e)))
        && ring == old(ring) + Newly(table, Hits(table, old(Values()), r, w, e), |table|)
      ensures forall e | e in all && !old(e.val.active) :: e.val == old(e.val)
    {
      hide Valid, EventBits, Touched, Signalled;
      InterestRegistered();
      SelectBound();
      var rfd, wfd, efd, n := {}, {}, {}, -1;
      match sel {
        case Interrupted =>
        case OtherError =>
        case BadDescriptor =>
        case Ready(r, w, e) => rfd, wfd, efd, n := r, w, e, |r| + |w| + |e|;
      }
      if sel.Interrupted? || sel.OtherError? {
        NothingTouched();
        return;
      }
      if n <= 0 {
        rfd, n := FdCheck(rfd, bad);
        assert BadBelow(selectN, bad) == set i | 0 <= i < |table| && table[i] != null && i in bad;
      }
      Scan(rfd, wfd, efd, n);
    }

    lemma ReadyDelivered(v: Fde, sel: SelectResult, bad: set<int>)
      requires v.active && Registered(v.fd)
      ensures Delivered(v, Ready(v, sel, bad), sel, bad)
    {
      hide Touched, EventBits, Signalled;
      var (r, w, e) := ScanSets(sel, bad);
      TouchedSignals(v, v.fd, r, w, e);
      if !(v.fd in r || v.fd in w || v.fd in e) { NotTouched(v, v.fd, r, w, e); }
    }

    /** The fdevents that become pending wait behind the others, in the order of their descriptors. */
    lemma WaitingInOrder(sel: SelectResult, bad: set<int>)
      requires Valid()
      ensures var q := Waiting(sel, bad); ring <= q && Ascending(q[|ring|..])
    {
      hide Links, Flags, Sets;
      var (r, w, e) := ScanSets(sel, bad);
      NewlyAscending(table, Hits(table, Values(), r, w, e), |table|);
    }

    lemma InterestRegistered()
      requires Valid()
      ensures Table()
      ensures forall fd | fd in readFds || fd in writeFds || fd in errorFds :: Registered(fd)
    {
    }

    lemma NothingTouched()
      ensures forall k | Registered(k) :: table[k].val == Touched(Values()[k], EventBits(k, {}, {}, {}))
      ensures ring == ring + Newly(table, Hits(table, Values(), {}, {}, {}), |table|)
    {
      assert Hits(table, Values(), {}, {}, {}) == {};
      NewlyStops(table, {}, 0, |table|);
      forall k | Registered(k) ensures Touched(Values()[k], EventBits(k, {}, {}, {})) == Values()[k] {
        NotTouched(Values()[k], k, {}, {}, {});
      }
    }

    // ---- Dispatch ----------------------------------------------------------------------

    /**
     * The head of the pending ring, out of the ring and with its PENDING bit cleared, as it is when its
     * callback runs; null when nothing is pending. It is always an fdevent that has not been removed.
     */
    method NextCallback() returns (r: Node?<Fde>, events: bv8)
      requires Valid()
      modifies this`ring, list`next, list`prev, ring`next, ring`prev, ring`val
      ensures Valid()
      ensures old(ring) == [] ==> r == null && ring == []
      ensures old(ring) != [] ==> r == old(ring)[0] && ring == old(ring)[1..] && r in all
      ensures r != null ==> r !in ring && old(r.val.active) && old(r.val.pending) && events == old(r.val.events)
      ensures r != null ==> r.val == old(r.val).(events := 0, pending := false)
      ensures forall e | e in all && e != r :: e.val == old(e.val)
    {
      hide IsRing, Wants, Table, Sets;
      FirstPending();
      r := PlistDequeue();
      events := 0;
      if r != null {
        events := r.val.events;
        r.val := r.val.(events := 0);
        r.val := r.val.(pending := false);
        assert Flags();
        SameInterest(r);
      }
    }

    lemma FirstPending()
      requires Valid()
      ensures ring != [] ==> ring[0] in all && ring[0].val.pending && ring[0].val.active && ring[0] !in ring[1..]
      ensures ring != [] ==> forall e :: e in ring <==> e == ring[0] || e in ring[1..]
    {
    }

    /** The fdevents are numbered by `known`, and `w` is what they look like. */
    ghost predicate Shows(w: World, known: seq<Event>)
      reads this, all`val
    {
      && Numbering(known) && (forall e | e in all :: e in known) && |table| == w.max
      && |w.fdes| == |known| && (forall i | 0 <= i < |known| :: known[i] in all && known[i].val == w.fdes[i])
      && Numbered(w.queue, ring, known)
    }

    /** The fdevent registered on a descriptor is the one the numbers give. */
    lemma OwnerListed(w: World, known: seq<Event>, fd: int)
      requires Valid() && Shows(w, known)
      ensures w.Owner(fd) == -1 <==> !Registered(fd)
      ensures w.Owner(fd) != -1 ==> table[fd] == known[w.Owner(fd)] && table[fd].val.active
    {
      hide Links, Flags, Sets, Numbered;
      if Registered(fd) {
        assert table[fd] in known;
        var i: nat :| i < |known| && known[i] == table[fd];
        assert w.fdes[i].active && w.fdes[i].fd == fd;
      }
    }

    lemma ShowsSound(w: World, known: seq<Event>)
      requires Valid() && Shows(w, known)
      ensures w.Sound()
    {
      hide IsRing, Sets, NoDups;
      RingDistinct(list, ring);
      NumbersDiffer(w.queue, ring, known);
      forall i: nat | i < |w.fdes| ensures w.fdes[i].pending <==> i in w.queue {
        NumberOf(w.queue, ring, known, i);
      }
    }

    /** The CREATED bit is of no account to the loop. */
    method MarkCreated(node: Event)
      modifies node`val
      ensures node.val == old(node.val).(created := true)
      ensures Valid() <==> old(Valid())
    {
      hide Links, Wants;
      node.val := node.val.(created := true);
      assert Flags() == old(Flags());
      assert Table() == old(Table());
      assert Sets() == old(Sets());
    }

    /** The body of a callback: any sequence of calls into this module, followed up to an abort or an install out of step. */
    method RunScript(known: seq<Event>, script: seq<Call>, ghost w: World)
      returns (known': seq<Event>, fate: Fate, ghost log: seq<Entry>)
      requires Valid() && Shows(w, known)
      modifies this, list, all
      ensures Followed(RunCalls(w, script), known', fate, log)
      ensures old(all) <= all && fresh(all - old(all))
      decreases script
    {
      hide Valid, Shows, RunCall;
      known', fate, log := known, Running, [];
      ghost var cur := w;
      for i := 0 to |script|
        invariant Valid() && Shows(cur, known') && fate.Running?
        invariant RunCalls(w, script) == Then(log, RunCalls(cur, script[i..]))
        invariant old(all) <= all && fresh(all - old(all))
      {
        assert script[i..][1..] == script[i + 1..];
        ghost var o := RunCall(cur, script[i]);
        ghost var more;
        known', fate, more := MakeCall(known', script[i], cur);
        log, cur := log + more, o.world;
        if !fate.Running? {
          return;
        }
      }
    }

    /** The calls went as the value-level run says. */
    ghost predicate Followed(o: Outcome, known: seq<Event>, fate: Fate, log: seq<Entry>)
      reads this, list`next, list`prev, ring`next, ring`prev, all`val, table`val
    {
      && fate == o.fate && log == o.log
      && (fate.Running? ==> Valid() && Shows(o.world, known))
      && (fate.OutOfStep? ==> !Valid())
    }

    method MakeCall(known: seq<Event>, c: Call, ghost w: World)
      returns (known': seq<Event>, fate: Fate, ghost log: seq<Entry>)
      requires Valid() && Shows(w, known)
      modifies this, list, all
      ensures Followed(RunCall(w, c), known', fate, log)
      ensures old(all) <= all && fresh(all - old(all))
      decreases c
    {
      hide Valid, Shows, CallOn, RunCalls;
      if c.Create? {
        log := [];
        known', fate := CreateOn(known, c.fd, w);
      } else if c.SubprocExit? {
        known', fate, log := OnSubprocExit(known, c, w);
      } else {
        known', log := known, [];
        KnownCount(w, known);
        if c.event < |known| {
          CallOnSilent(w, c.event, c);
          fate := CallEvent(known, c.event, c, w);
        } else {
          fate := Running;
        }
      }
    }

    lemma KnownCount(w: World, known: seq<Event>)
      requires Shows(w, known)
      ensures |w.fdes| == |known| && w.max == |table|
    {
    }

    /** fdevent_create on a new fdevent. */
    method CreateOn(known: seq<Event>, fd: int, ghost w: World) returns (known': seq<Event>, fate: Fate)
      requires Valid() && Shows(w, known)
      modifies this, list, all
      ensures Followed(RunCall(w, Create(fd)), known', fate, [])
      ensures old(all) <= all && fresh(all - old(all))
    {
      hide Valid, Numbered, GrownMax;
      OwnerListed(w, known, fd);
      known' := known;
      if fd < 0 || (fd >= |table| && fd > MAX_FD) {
        return known, Aborted;
      }
      var node := new Node<Fde>(Fde(fd, 0, false, false, false, 0));
      fate := if fd < |table| && table[fd] != null then OutOfStep else Running;
      Install(node, fd);
      MarkCreated(node);
      known' := known + [node];
      NumberedMore(w.queue, ring, known, node);
    }

    method CallEvent(known: seq<Event>, i: nat, c: Call, ghost w: World) returns (fate: Fate)
      requires Valid() && Shows(w, known) && i < |known| == |w.fdes| && !c.Create? && !c.SubprocExit?
      modifies this, list, all
      ensures Followed(CallOn(w, i, c), known, fate, [])
      ensures all == old(all)
    {
      hide Valid, Shows, Wants, IsRing;
      match c
      case Reinstall(_, fd) => fate := ReinstallOn(known, i, fd, w);
      case Remove(_) => RemoveEvent(known, i, w); fate := Running;
      case Destroy(_) =>
        ShownValue(w, known, i);
        if known[i].val.created {
          RemoveEvent(known, i, w);
          fate := Running;
        } else {
          fate := Aborted;
        }
      case SetTo(_, events) => SetEvent(known, i, events, w); fate := Running;
      case Add(_, events) => ShownValue(w, known, i); SetEvent(known, i, Merged(known[i].val.wanted, events), w); fate := Running;
      case Del(_, events) => ShownValue(w, known, i); SetEvent(known, i, Cleared(known[i].val.wanted, events), w); fate := Running;
    }

    lemma ShownValue(w: World, known: seq<Event>, i: nat)
      requires Shows(w, known) && i < |known|
      ensures |w.fdes| == |known| && known[i] in all && known[i].val == w.fdes[i]
    {
    }

    method ReinstallOn(known: seq<Event>, i: nat, fd: int, ghost w: World) returns (fate: Fate)
      requires Valid() && Shows(w, known) && i < |known| == |w.fdes|
      modifies this, list, all
      ensures Followed(CallOn(w, i, Reinstall(i, fd)), known, fate, [])
      ensures all == old(all)
    {
      hide IsRing, Wants, Idle, Numbered, GrownMax;
      var node := known[i];
      OwnerListed(w, known, fd);
      if fd < 0 || (fd >= |table| && fd > MAX_FD) {
        return Aborted;
      }
      var taken := fd < |table| && table[fd] != null;
      fate := if (!node.val.active && !taken) || (taken && table[fd] == node && !node.val.pending && Idle(node.val.wanted))
        then Running else OutOfStep;
      Install(node, fd);
    }

    method RemoveEvent(known: seq<Event>, i: nat, ghost w: World)
      requires Valid() && Shows(w, known) && i < |known| == |w.fdes|
      modifies this, list, all
      ensures Valid() && Shows(w.Dropped(i), known)
      ensures all == old(all)
    {
      hide IsRing, Wants, Numbered, RemoveFirst;
      var node := known[i];
      NumberedWithout(w.queue, ring, known, i);
      var fatal := Remove(node);
    }

    method SetEvent(known: seq<Event>, i: nat, events: bv8, ghost w: World)
      requires Valid() && Shows(w, known) && i < |known| == |w.fdes|
      modifies this, list, all
      ensures Valid() && Shows(w.Retargeted(i, events), known)
      ensures all == old(all)
    {
      hide IsRing, Wants, Numbered, RemoveFirst, Interest;
      var node := known[i];
      NumberedWithout(w.queue, ring, known, i);
      SetEvents(node, events);
    }

    /** The shell-exit handler on the descriptor it has read: an fdevent found there that is not queued is called at once. */
    method OnSubprocExit(known: seq<Event>, c: Call, ghost w: World)
      returns (known': seq<Event>, fate: Fate, ghost log: seq<Entry>)
      requires Valid() && Shows(w, known) && c.SubprocExit?
      modifies this, list, all
      ensures Followed(RunCall(w, c), known', fate, log)
      ensures old(all) <= all && fresh(all - old(all))
      decreases c, 0
    {
      hide IsRing, Wants, Numbered, RunCalls, Merged;
      known', fate, log := known, Running, [];
      OwnerListed(w, known, c.fd);
      if c.fd < 0 || c.fd >= |table| || table[c.fd] == null || c.data {
        return;
      }
      var node := table[c.fd];
      ghost var i := w.Owner(c.fd);
      if node.val.pending {
        Signal(node, READ);
      } else {
        CalledSame(w, known, i);
        node.val := node.val.(events := Merged(node.val.events, READ), pending := true);
        log := [Entry(i, node.val, true)];
        node.val := node.val.(events := 0, pending := false);
        ghost var more;
        known', fate, more := RunScript(known, c.body, w);
        log := log + more;
      }
    }

    lemma CalledSame(w: World, known: seq<Event>, i: nat)
      requires Valid() && Shows(w, known) && i < |w.fdes| && !w.fdes[i].pending
      ensures w.Called(i) == w && w.fdes[i].events == 0
    {
    }

    /**
     * An fdevent installed on a descriptor in use displaces the one there: both are active on it, the table holds
     * only the new one, and removing the old one aborts.
     */
    method InstallOverTaken(node: Event, fd: int) returns (displaced: Event)
      requires Valid() && node != list && Registered(fd) && !(node in all && node.val.active)
      modifies this`table, this`selectN, this`all, node
      ensures displaced == old(table[fd]) && displaced != node && displaced in all && displaced.val == old(displaced.val)
      ensures node.val.active && displaced.val.active && node.val.fd == displaced.val.fd == fd
      ensures table == old(table)[fd := node] && !Listed(displaced) && !Valid()
      ensures Links() && Flags() && 0 <= selectN <= |table|
    {
      hide Sets, IsRing;
      displaced := table[fd];
      Install(node, fd);
    }

    method RemoveDisplaced(node: Event, fd: int) returns (fatal: bool)
      requires Valid() && node != list && Registered(fd) && !(node in all && node.val.active)
      modifies this, list, all, node
      ensures fatal
    {
      hide Sets, IsRing;
      var displaced := InstallOverTaken(node, fd);
      fatal := Remove(displaced);
    }

    /** The loop that empties the pending list, with arbitrary callbacks: the n-th one runs `scripts[n]`. */
    method DispatchPending(known: seq<Event>, scripts: seq<seq<Call>>, ghost w: World)
      returns (known': seq<Event>, fate: Fate, ghost log: seq<Entry>)
      requires Valid() && Shows(w, known) && w.InRange()
      modifies this, list, all
      ensures Followed(Dispatch(w, scripts), known', fate, log)
      ensures fate.Running? ==> ring == []
    {
      hide Valid, Shows, World.InRange, RunCalls, First, Dispatch;
      known', fate, log := known, Running, [];
      ghost var cur := w;
      var rest := scripts;
      while true
        invariant Valid() && Shows(cur, known') && cur.InRange() && fate.Running?
        invariant Dispatch(w, scripts) == Then(log, Dispatch(cur, rest))
        invariant old(all) <= all && fresh(all - old(all))
        decreases |cur.queue|
      {
        var none;
        ghost var more;
        none, known', fate, more := RunCallback(known', Head(rest), cur);
        if none {
          NothingQueued(cur, rest);
          return;
        }
        DispatchOn(log, cur, rest);
        cur, log := RunCalls(First(cur), Head(rest)).world, log + more;
        rest := Tail(rest);
        if !fate.Running? {
          return;
        }
      }
    }

    /** The next callback, if something is pending. */
    method RunCallback(known: seq<Event>, script: seq<Call>, ghost w: World)
      returns (none: bool, known': seq<Event>, fate: Fate, ghost log: seq<Entry>)
      requires Valid() && Shows(w, known) && w.InRange()
      modifies this, list, all
      ensures none <==> w.queue == []
      ensures none ==> known' == known && fate.Running? && log == [] && ring == [] && Valid() && Shows(w, known)
      ensures !none ==> w.queue[0] < |w.fdes|
      ensures !none ==>
        Followed(Then([Entry(w.queue[0], w.fdes[w.queue[0]], false)], RunCalls(First(w), script)), known', fate, log)
      ensures old(all) <= all && fresh(all - old(all))
    {
      hide Valid, Shows, World.InRange, RunCalls, First;
      none, known', fate, log := false, known, Running, [];
      var node, i := NextEvent(known, w);
      if node == null {
        none := true;
        return;
      }
      ghost var more;
      known', fate, more := RunScript(known, script, First(w));
      log := [Entry(i, w.fdes[i], false)] + more;
    }

    /** fdevent_plist_dequeue and fdevent_call_fdfunc up to the call. */
    method NextEvent(known: seq<Event>, ghost w: World) returns (r: Node?<Fde>, ghost i: nat)
      requires Valid() && Shows(w, known) && w.InRange()
      modifies this`ring, list, all
      ensures Valid()
      ensures r == null <==> w.queue == []
      ensures r == null ==> ring == [] && Shows(w, known)
      ensures r != null ==> i == w.queue[0] < |w.fdes| && Shows(First(w), known)
    {
      hide IsRing, Sets, Table;
      i := 0;
      var events;
      r, events := NextCallback();
      if r != null {
        i := w.queue[0];
      }
    }

    /** An fdevent after select: an active one has its result bits added and is pending if there are any. */
    ghost function Ready(v: Fde, sel: SelectResult, bad: set<int>): Fde
      reads this`table
    {
      var (r, w, e) := ScanSets(sel, bad);
      if v.active then Touched(v, EventBits(v.fd, r, w, e)) else v
    }

    /** The pending ring after select: the newly pending fdevents follow in descriptor order. */
    ghost function Waiting(sel: SelectResult, bad: set<int>): seq<Event>
      reads this, table`val
    {
      var (r, w, e) := ScanSets(sel, bad);
      ring + Newly(table, Hits(table, Values(), r, w, e), |table|)
    }

    /** fdevent_process: what select reports is delivered to every fdevent. */
    method Process(sel: SelectResult, bad: set<int>, ghost known: seq<Event>)
      requires Valid() && forall e | e in known :: e in all
      requires sel.Ready? ==> sel.r <= readFds && sel.w <= writeFds && sel.e <= errorFds
      modifies this`ring, list, all
      ensures Valid() && ring == old(Waiting(sel, bad))
      ensures forall i | 0 <= i < |known| :: Delivered(old(known[i].val), known[i].val, sel, bad)
    {
      hide Valid, EventBits, Hits, ScanSets, Touched, Newly, Delivered;
      KnownListed(known);
      ghost var vals := Vals(known);
      ScanResults(sel, bad);
      forall i | 0 <= i < |known| ensures Delivered(old(known[i].val), known[i].val, sel, bad) {
        assert known[i] in known && vals[i] == old(known[i].val);
        if vals[i].active {
          assert Registered(vals[i].fd) && table[vals[i].fd] == known[i];
          ReadyDelivered(vals[i], sel, bad);
        } else {
          NoneDelivered(vals[i], sel, bad);
        }
      }
    }

    /** fdevent_process, and the world it leaves. */
    method ProcessKnown(sel: SelectResult, bad: set<int>, known: seq<Event>) returns (ghost mid: World)
      requires Valid() && Numbering(known) && forall e :: e in all <==> e in known
      requires sel.Ready? ==> sel.r <= readFds && sel.w <= writeFds && sel.e <= errorFds
      modifies this`ring, list, all
      ensures Valid() && Shows(mid, known) && mid.Sound()
      ensures |mid.fdes| == |known| && forall i | 0 <= i < |known| :: Delivered(old(known[i].val), mid.fdes[i], sel, bad)
      ensures Numbered(mid.queue, old(Waiting(sel, bad)), known)
    {
      hide Valid, Numbered, Waiting, Delivered, Shows, World.Sound;
      Process(sel, bad, known);
      PendingOwned();
      mid := World(Vals(known), Numbers(ring, known), |table|);
      ShowsItself(known);
      ShowsSound(mid, known);
    }

    lemma ShowsItself(known: seq<Event>)
      requires Numbering(known) && (forall e :: e in all <==> e in known) && forall e | e in ring :: e in all
      ensures Shows(World(Vals(known), Numbers(ring, known), |table|), known)
    {
    }

    lemma KnownListed(known: seq<Event>)
      requires Valid() && forall e | e in known :: e in all
      ensures forall i | 0 <= i < |known| && known[i].val.active :: Listed(known[i])
    {
    }

    lemma PendingOwned()
      requires Valid()
      ensures forall e | e in ring :: e in all
    {
    }

    /**
     * One turn of fdevent_loop with arbitrary callbacks: the ready fdevents join the queue and the queue is
     * dispatched, `log` holding each callback that was run, with its fdevent just before.
     */
    method Turn(sel: SelectResult, bad: set<int>, known: seq<Event>, scripts: seq<seq<Call>>)
      returns (known': seq<Event>, fate: Fate, ghost mid: World, ghost log: seq<Entry>)
      requires Valid() && Numbering(known) && forall e :: e in all <==> e in known
      requires sel.Ready? ==> sel.r <= readFds && sel.w <= writeFds && sel.e <= errorFds
      modifies this, list, all
      ensures mid.Sound()
      ensures |mid.fdes| == |known| && forall i | 0 <= i < |known| :: Delivered(old(known[i].val), mid.fdes[i], sel, bad)
      ensures Numbered(mid.queue, old(Waiting(sel, bad)), known)
      ensures Followed(Dispatch(mid, scripts), known', fate, log)
      ensures fate.Running? ==> ring == []
    {
      hide Valid, Shows, World.Sound, Delivered, Waiting, Dispatch;
      mid := ProcessKnown(sel, bad, known);
      SoundInRange(mid);
      known', fate, log := DispatchPending(known, scripts, mid);
    }

    lemma SelectBound()
      requires Valid()
      ensures 0 <= selectN <= |table| && forall i | Registered(i) :: i < selectN && table[i] in all && table[i].val.active
    {
    }
  }

  function EventBits(fd: int, rfd: set<int>, wfd: set<int>, efd: set<int>): bv8 {
    (if fd in rfd then READ else 0) | (if fd in wfd then WRITE else 0) | (if fd in efd then ERROR else 0)
  }

  lemma EventBitsNonzero(fd: int, rfd: set<int>, wfd: set<int>, efd: set<int>)
    ensures EventBits(fd, rfd, wfd, efd) != 0 <==> fd in rfd || fd in wfd || fd in efd
  {
  }

  function Touched(v: Fde, bits: bv8): Fde {
    if bits == 0 then v else v.(events := Merged(v.events, bits), pending := true)
  }

  lemma NotTouched(v: Fde, fd: int, rfd: set<int>, wfd: set<int>, efd: set<int>)
    requires fd !in rfd && fd !in wfd && fd !in efd
    ensures Touched(v, EventBits(fd, rfd, wfd, efd)) == v
  {
    EventBitsNonzero(fd, rfd, wfd, efd);
  }

  /**
   * Each result bit of a descriptor is signalled as its own event (0x01 read, 0x02 write, 0x04 error), events signalled before stay signalled, and the
   * fdevent is pending if any bit was set.
   */
  ghost predicate Signalled(v: Fde, v': Fde, r: bool, w: bool, e: bool) {
    && (Wants(v'.events, 0x01) <==> Wants(v.events, 0x01) || r)
    && (Wants(v'.events, 0x02) <==> Wants(v.events, 0x02) || w)
    && (Wants(v'.events, 0x04) <==> Wants(v.events, 0x04) || e)
    && Cleared(v'.events, 0x07) == Cleared(v.events, 0x07)
    && (v'.pending <==> v.pending || r || w || e)
    && v' == v.(events := v'.events, pending := v'.pending)
  }

  lemma TouchedSignals(v: Fde, fd: int, rfd: set<int>, wfd: set<int>, efd: set<int>)
    ensures Signalled(v, Touched(v, EventBits(fd, rfd, wfd, efd)), fd in rfd, fd in wfd, fd in efd)
  {
  }

  /**
   * What select's answer means for one fdevent: an active one is signalled what was reported on its descriptor. After a
   * bad descriptor or an empty answer, a descriptor on which fcntl fails counts as readable.
   */
  ghost predicate Delivered(v: Fde, v': Fde, sel: SelectResult, bad: set<int>) {
    if !v.active || sel.Interrupted? || sel.OtherError? then v' == v
    else if sel.BadDescriptor? || sel == Ready({}, {}, {}) then Signalled(v, v', v.fd in bad, false, false)
    else Signalled(v, v', v.fd in sel.r, v.fd in sel.w, v.fd in sel.e)
  }

  lemma NoneDelivered(v: Fde, sel: SelectResult, bad: set<int>)
    requires !v.active || sel.Interrupted? || sel.OtherError?
    ensures Delivered(v, v, sel, bad)
  {
  }

  /** In the order of their descriptors. */
  ghost predicate Ascending(events: seq<Event>)
    reads events`val
  {
    forall i, j | 0 <= i < j < |events| :: events[i].val.fd < events[j].val.fd
  }

  lemma {:induction false} NewlyAscending(table: seq<Node?<Fde>>, fds: set<int>, k: nat)
    requires k <= |table| && forall i | i in fds :: 0 <= i < |table| && table[i] != null && table[i].val.fd == i
    ensures Ascending(Newly(table, fds, k)) && forall e | e in Newly(table, fds, k) :: e.val.fd < k
  {
    if k > 0 {
      NewlyAscending(table, fds, k - 1);
    }
  }

  ghost function Snapshot(table: seq<Node?<Fde>>): (vs: seq<Fde>)
    reads table`val
    ensures |vs| == |table| && forall k | 0 <= k < |table| && table[k] != null :: vs[k] == table[k].val
  {
    if table == [] then []
    else [if table[0] == null then Fde(-1, 0, false, false, false, 0) else table[0].val] + Snapshot(table[1..])
  }

  /** The registered descriptors with a result bit whose fdevent is not queued yet. */
  function Hits(table: seq<Node?<Fde>>, vs: seq<Fde>, rfd: set<int>, wfd: set<int>, efd: set<int>): set<int>
    requires |vs| == |table|
  {
    set i | 0 <= i < |table| && table[i] != null && (i in rfd || i in wfd || i in efd) && !vs[i].pending
  }

  /** The table entries at the given descriptors below `k`, in descriptor order. */
  ghost function Newly(table: seq<Node?<Fde>>, fds: set<int>, k: nat): seq<Event>
    requires k <= |table| && forall i | i in fds :: 0 <= i < |table| && table[i] != null
  {
    if k == 0 then [] else Newly(table, fds, k - 1) + if k - 1 in fds then [table[k - 1]] else []
  }

  lemma {:induction false} NewlyStops(table: seq<Node?<Fde>>, fds: set<int>, i: nat, k: nat)
    requires i <= k <= |table| && forall x | x in fds :: 0 <= x < |table| && table[x] != null
    requires forall x | x in fds :: x < i
    ensures Newly(table, fds, k) == Newly(table, fds, i)
  {
    if i < k {
      NewlyStops(table, fds, i, k - 1);
    }
  }

  lemma NoneNew(table: seq<Node?<Fde>>, vs: seq<Fde>, rfd: set<int>, wfd: set<int>, efd: set<int>)
    requires |vs| == |table|
    ensures forall i | i in Hits(table, vs, rfd, wfd, efd) :: 0 <= i < |table| && table[i] != null
    ensures Newly(table, Hits(table, vs, rfd, wfd, efd), 0) == []
  {
  }

  lemma NewlyNext(table: seq<Node?<Fde>>, vs: seq<Fde>, rfd: set<int>, wfd: set<int>, efd: set<int>, i: nat)
    requires |vs| == |table| && i < |table|
    ensures var fds := Hits(table, vs, rfd, wfd, efd);
      Newly(table, fds, i + 1) == Newly(table, fds, i) +
        if table[i] != null && (i in rfd || i in wfd || i in efd) && !vs[i].pending then [table[i]] else []
  {
  }

  lemma HitsStop(table: seq<Node?<Fde>>, vs: seq<Fde>, rfd: set<int>, wfd: set<int>, efd: set<int>, i: nat)
    requires |vs| == |table| && i <= |table| && forall x | x in rfd || x in wfd || x in efd :: x < i
    ensures var fds := Hits(table, vs, rfd, wfd, efd); Newly(table, fds, |table|) == Newly(table, fds, i)
  {
    NewlyStops(table, Hits(table, vs, rfd, wfd, efd), i, |table|);
  }

  function Above(s: set<int>, i: int): nat { |set x | x in s && x >= i| }

  lemma AboveAll(s: set<int>)
    requires forall x | x in s :: x >= 0
    ensures Above(s, 0) == |s|
  {
    assert (set x | x in s && x >= 0) == s;
  }

  lemma AboveStep(s: set<int>, i: int)
    ensures Above(s, i) == Above(s, i + 1) + if i in s then 1 else 0
    ensures Above(s, i) == 0 ==> forall x | x in s :: x < i
  {
    var high, higher := set x | x in s && x >= i, set x | x in s && x >= i + 1;
    if i in s {
      assert high == higher + {i};
    } else {
      assert high == higher;
    }
    if Above(s, i) == 0 {
      forall x | x in s ensures x < i {
        assert x >= i ==> x in high;
      }
    }
  }

  /** The result bits at or above a descriptor. */
  function Left(rfd: set<int>, wfd: set<int>, efd: set<int>, i: int): nat {
    Above(rfd, i) + Above(wfd, i) + Above(efd, i)
  }

  lemma LeftAll(rfd: set<int>, wfd: set<int>, efd: set<int>)
    requires forall x | x in rfd || x in wfd || x in efd :: x >= 0
    ensures Left(rfd, wfd, efd, 0) == |rfd| + |wfd| + |efd|
  {
    AboveAll(rfd);
    AboveAll(wfd);
    AboveAll(efd);
  }

  lemma LeftStep(rfd: set<int>, wfd: set<int>, efd: set<int>, i: int)
    ensures Left(rfd, wfd, efd, i) == Left(rfd, wfd, efd, i + 1) +
      (if i in rfd then 1 else 0) + (if i in wfd then 1 else 0) + (if i in efd then 1 else 0)
    ensures Left(rfd, wfd, efd, i) == 0 ==> forall x | x in rfd || x in wfd || x in efd :: x < i
  {
    AboveStep(rfd, i);
    AboveStep(wfd, i);
    AboveStep(efd, i);
  }

  lemma NumberedMore(queue: seq<nat>, ring: seq<Event>, known: seq<Event>, node: Event)
    requires Numbered(queue, ring, known)
    ensures Numbered(queue, ring, known + [node])
  {
  }

  lemma RingDistinct(s: Event, ring: seq<Event>)
    requires IsRing(s, ring)
    ensures Distinct(ring)
  {
  }

  /** No fdevent has two numbers. */
  ghost predicate Numbering(known: seq<Event>) {
    forall i, j | 0 <= i < j < |known| :: known[i] != known[j]
  }

  ghost predicate Numbered(queue: seq<nat>, ring: seq<Event>, known: seq<Event>) {
    |queue| == |ring| && forall j | 0 <= j < |queue| :: queue[j] < |known| && ring[j] == known[queue[j]]
  }

  ghost function Numbers(ring: seq<Event>, known: seq<Event>): (queue: seq<nat>)
    requires forall e | e in ring :: e in known
    ensures Numbered(queue, ring, known)
  {
    if ring == [] then [] else
      assert ring[0] in known;
      var i: nat :| i < |known| && known[i] == ring[0];
      [i] + Numbers(ring[1..], known)
  }

  lemma NumberOf(queue: seq<nat>, ring: seq<Event>, known: seq<Event>, i: nat)
    requires Numbering(known) && Numbered(queue, ring, known) && i < |known|
    ensures i in queue <==> known[i] in ring
  {
    if i in queue {
      var j :| 0 <= j < |queue| && queue[j] == i;
      assert ring[j] == known[i];
    }
    if known[i] in ring {
      var j :| 0 <= j < |ring| && ring[j] == known[i];
      assert queue[j] == i;
    }
  }

  lemma {:induction false} NumbersDiffer(queue: seq<nat>, ring: seq<Event>, known: seq<Event>)
    requires Numbering(known) && Numbered(queue, ring, known) && Distinct(ring)
    ensures NoDups(queue)
  {
    if queue != [] {
      NumbersDiffer(queue[1..], ring[1..], known);
      assert forall j | 0 < j < |queue| :: ring[j] != ring[0] && queue[j] != queue[0];
    }
  }

  lemma {:induction false} NumberedWithout(queue: seq<nat>, ring: seq<Event>, known: seq<Event>, i: nat)
    requires Numbering(known) && Numbered(queue, ring, known) && i < |known|
    ensures Numbered(RemoveFirst(queue, i), RemoveFirst(ring, known[i]), known)
  {
    if queue != [] {
      assert ring[0] == known[i] <==> queue[0] == i;
      NumberedWithout(queue[1..], ring[1..], known, i);
    }
  }
}
