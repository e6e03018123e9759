/** The fd event loop with select: a table of registered fdevents, three bit
    sets, the bound passed to select, the flags of each fdevent and the list of
    pending ones. */
module FdEvents {
  import opened Lists
  import opened FdFlags
  import opened FdLoops

  /** The new entries of a grown table: memset clears as many bytes as there are
      entries times the size of an int. */
  function AfterMemset(memory: seq<int>, pointerSize: nat): seq<int>
    requires pointerSize == 4 || pointerSize == 8
  {
    seq(|memory|, i requires 0 <= i < |memory| => if pointerSize * i < 4 * |memory| then 0 else memory[i])
  }

  /** They are all null exactly if pointers are as wide as ints, or if the upper
      half of the memory that realloc gave happened to be zero. */
  lemma NewEntriesAreNull(memory: seq<int>, pointerSize: nat)
    requires pointerSize == 4 || pointerSize == 8
    ensures (forall i :: 0 <= i < |memory| ==> AfterMemset(memory, pointerSize)[i] == 0) <==>
            pointerSize == 4 || forall i :: (|memory| + 1) / 2 <= i < |memory| ==> memory[i] == 0
  {
    if pointerSize == 8 {
      forall i | (|memory| + 1) / 2 <= i < |memory|
        ensures AfterMemset(memory, pointerSize)[i] == memory[i]
      {
      }
    }
  }

  class Fdevent {
    var fd: nat
    var forceEof: bool
    var state: flags
    var events: flags

    constructor ()
      ensures state == 0 && events == 0 && !forceEof
    {
      fd, forceEof, state, events := 0, false, 0, 0;
    }
  }

  /** An fdevent, the entries of a table and a list, as values. */
  ghost function ValueOf(f: Fdevent): Fde
    reads f`state, f`events, f`forceEof
  {
    Fde(EventBits(f.state), f.events, f.forceEof)
  }

  ghost function Entries(table: seq<Fdevent?>): map<nat, Fde>
    reads set i | 0 <= i < |table| && table[i] != null :: table[i]
  {
    map i: nat | i < |table| && table[i] != null :: ValueOf(table[i])
  }

  ghost function FdsOf(ps: seq<Fdevent>): (r: seq<nat>)
    reads set i | 0 <= i < |ps| :: ps[i]
    ensures |r| == |ps| && forall i :: 0 <= i < |ps| ==> r[i] == ps[i].fd
  {
    seq(|ps|, i requires 0 <= i < |ps| reads set j | 0 <= j < |ps| :: ps[j] => ps[i].fd)
  }

  /** A list of pending fdevents: registered ones, none of them twice. */
  ghost predicate GoodList(ps: seq<Fdevent>, registered: set<Fdevent>) {
    Distinct(ps) && forall i :: 0 <= i < |ps| ==> ps[i] in registered
  }

  /** fdevent_plist_remove on the list as a sequence. */
  function Unlinked(ps: seq<Fdevent>, f: Fdevent): seq<Fdevent> {
    if ps == [] then []
    else if ps[0] == f then Unlinked(ps[1..], f)
    else [ps[0]] + Unlinked(ps[1..], f)
  }

  lemma {:induction false} UnlinkedFacts(ps: seq<Fdevent>, f: Fdevent)
    ensures forall g :: g in Unlinked(ps, f) ==> g in ps && g != f
    ensures forall g :: g in ps && g != f ==> g in Unlinked(ps, f)
    ensures Distinct(ps) ==> Distinct(Unlinked(ps, f))
    ensures |Unlinked(ps, f)| <= |ps|
    ensures f !in ps ==> Unlinked(ps, f) == ps
  {
    if ps != [] {
      UnlinkedFacts(ps[1..], f);
      assert ps == [ps[0]] + ps[1..];
      assert Distinct(ps) ==> Distinct(ps[1..]) && ps[0] !in ps[1..];
    }
  }

  lemma {:induction false} UnlinkedFds(ps: seq<Fdevent>, f: Fdevent)
    requires forall g :: g in ps && g.fd == f.fd ==> g == f
    ensures FdsOf(Unlinked(ps, f)) == Dropped(FdsOf(ps), f.fd)
  {
    if ps != [] {
      UnlinkedFds(ps[1..], f);
      assert FdsOf(ps) == [ps[0].fd] + FdsOf(ps[1..]);
      var rest := Unlinked(ps[1..], f);
      assert FdsOf([ps[0]] + rest) == [ps[0].fd] + FdsOf(rest);
    }
  }

  lemma UnlinkedGood(ps: seq<Fdevent>, f: Fdevent, registered: set<Fdevent>)
    requires GoodList(ps, registered)
    ensures GoodList(Unlinked(ps, f), registered)
  {
    var r := Unlinked(ps, f);
    UnlinkedFacts(ps, f);
    forall i | 0 <= i < |r|
      ensures r[i] in registered
    {
      assert r[i] in r && r[i] in ps;
    }
  }

  /** The entry of an fd. */
  function EntryOf(table: seq<Fdevent?>, i: nat): Fdevent? {
    if i < |table| then table[i] else null
  }

  /** The sizes that the table can have. */
  predicate TableSize(n: nat) {
    n in {0, 256, 512, 1024, 2048, 4096, 8192, 16384, 32768}
  }

  class EventLoop {
    var table: seq<Fdevent?>           // fd_table, of fd_table_max entries
    var selectN: nat
    var readFds: set<nat>
    var writeFds: set<nat>
    var errorFds: set<nat>
    var pending: seq<Fdevent>          // list_pending
    ghost var registered: set<Fdevent> // the fdevents in the table
    ghost var closed: seq<nat>         // the fds passed to adb_close
    ghost var called: seq<(nat, flags)> // the callbacks called

    /** An fdevent agrees with the table, the sets, the bound and the list. */
    ghost predicate Agrees(f: Fdevent)
      reads this, f
    {
      && f.fd < |table| && table[f.fd] == f && f.fd < selectN
      && Has(f.state, FDE_ACTIVE)
      && (Has(f.state, FDE_READ) <==> f.fd in readFds)
      && (Has(f.state, FDE_WRITE) <==> f.fd in writeFds)
      && (Has(f.state, FDE_ERROR) <==> f.fd in errorFds)
      && (Has(f.state, FDE_PENDING) <==> f in pending)
      && (Has(f.state, FDE_PENDING) <==> f.events != 0)
    }

    /** The part of coherence that does not look into the fdevents. */
    ghost predicate Shape()
      reads this
    {
      && TableSize(|table|) && selectN <= |table|
      && GoodList(pending, registered)
    }

    /** The loop as a value. */
    ghost function View(): Loop
      reads this, registered
      requires Valid()
    {
      Loop(|table|, Entries(table), FdsOf(pending), closed, called)
    }

    /** Every entry of the table is a registered fdevent in its place. */
    ghost predicate Indexed()
      reads this, registered
    {
      forall i :: 0 <= i < |table| && table[i] != null ==> table[i] in registered && table[i].fd == i
    }

    /** Only fds with an entry are in the sets. */
    static ghost predicate Backed(table: seq<Fdevent?>, fds: set<nat>) {
      forall i :: i in fds ==> i < |table| && table[i] != null
    }

    ghost predicate Valid()
      reads this, registered
    {
      && Shape() && Indexed()
      && Backed(table, readFds) && Backed(table, writeFds) && Backed(table, errorFds)
      && forall f :: f in registered ==> Agrees(f)
    }

    constructor ()
      ensures Valid() && registered == {} && View() == Loop(0, map[], [], [], [])
    {
      table, selectN, readFds, writeFds, errorFds := [], 0, {}, {}, {};
      pending, registered, closed, called := [], {}, [], [];
    }

    /** The other fdevents agree if only `f` and what belongs to it has changed. */
    twostate lemma OthersAgree(f: Fdevent)
      requires old(Valid()) && f in registered && registered == old(registered)
      requires table == old(table) && selectN == old(selectN)
      requires forall g :: g in registered && g != f ==> unchanged(g)
      requires forall i :: i != f.fd ==> (i in readFds <==> i in old(readFds))
      requires forall i :: i != f.fd ==> (i in writeFds <==> i in old(writeFds))
      requires forall i :: i != f.fd ==> (i in errorFds <==> i in old(errorFds))
      requires forall g :: g in registered && g != f ==> (g in pending <==> g in old(pending))
      requires f.fd == old(f.fd)
      ensures forall g :: g in registered && g != f ==> Agrees(g)
      ensures Backed(table, readFds) && Backed(table, writeFds) && Backed(table, errorFds)
    {
      hide Has;
      assert old(Agrees(f));
      forall g | g in registered && g != f
        ensures Agrees(g)
      {
        assert old(Agrees(g));
      }
    }

    /** The value of the loop if only `f` has changed. */
    twostate lemma OneChanged(f: Fdevent)
      requires old(Valid()) && Valid() && f in registered && registered == old(registered)
      requires table == old(table)
      requires forall g :: g in registered && g != f ==> unchanged(g)
      requires f.fd == old(f.fd)
      ensures f.fd in old(View()).fdes && old(View()).fdes[f.fd] == old(ValueOf(f))
      ensures View().fdes == old(View()).fdes[f.fd := ValueOf(f)] && View().size == old(View()).size
      ensures forall g :: g in registered ==> g.fd == old(g.fd)
    {
      hide Has, GoodList, TableSize, EventBits;
      assert Agrees(f);
      hide Agrees;
      assert forall i: nat :: i < |table| && table[i] != null && table[i] == f ==> i == f.fd;
    }

    /** A list of which the fds are what they were. */
    twostate lemma SameFds(ps: seq<Fdevent>)
      requires forall g :: g in ps ==> g.fd == old(g.fd)
      ensures FdsOf(ps) == old(FdsOf(ps))
    {
    }

    /** The list without `f`. */
    twostate lemma ListWithout(f: Fdevent)
      requires old(Valid()) && f in registered && registered == old(registered)
      requires forall g :: g in registered ==> g.fd == old(g.fd)
      ensures FdsOf(old(pending)) == old(View()).pending
      ensures FdsOf(Unlinked(old(pending), f)) == Dropped(old(View()).pending, f.fd)
    {
      hide Has, TableSize, EventBits;
      SameFds(old(pending));
      var ps := old(pending);
      assert forall g :: g in ps ==> g in registered;
      forall g | g in ps && g.fd == f.fd
        ensures g == f
      {
        assert old(Agrees(g)) && old(Agrees(f));
      }
      UnlinkedFds(ps, f);
    }

    twostate lemma SetViews(f: Fdevent, new wanted: flags)
      requires old(Valid()) && Valid() && f in registered && registered == old(registered)
      requires table == old(table) && closed == old(closed) && called == old(called)
      requires forall g :: g in registered && g != f ==> unchanged(g)
      requires f.fd == old(f.fd) && f.forceEof == old(f.forceEof)
      requires EventBits(f.state) == EventBits(wanted) && f.events == Kept(old(f.state), old(f.events), wanted)
      requires pending == if f.events == 0 then Unlinked(old(pending), f) else old(pending)
      ensures f.fd in old(View()).fdes
      ensures View() == WantedSet(old(View()), f.fd, wanted)
    {
      hide Valid, Has, EventBits, Without;
      EventBitsTwice(old(f.state));
      OneChanged(f);
      ListWithout(f);
    }

    /** The part of fdevent_set for a pending fdevent. */
    method Withdraw(f: Fdevent, events: flags)
      requires GoodList(pending, registered) && f in registered && Has(f.state, FDE_PENDING) && f in pending
      modifies this`pending, f`state, f`events
      ensures GoodList(pending, registered)
      ensures f.events == Without(old(f.events), events)
      ensures pending == if f.events == 0 then Unlinked(old(pending), f) else old(pending)
      ensures f.state == if f.events == 0 then Without(old(f.state), FDE_PENDING) else old(f.state)
      ensures f in pending <==> f.events != 0
      ensures forall g :: g != f ==> (g in pending <==> g in old(pending))
    {
      hide Has, Without, GoodList, Unlinked;
      f.events := Without(f.events, events);
      if f.events == 0 {
        UnlinkedFacts(pending, f);
        UnlinkedGood(pending, f, registered);
        pending := Unlinked(pending, f);
        f.state := Without(f.state, FDE_PENDING);
      }
    }

    /** fdevent_set. */
    method Set(f: Fdevent, wanted: flags)
      requires Valid() && f in registered
      modifies this`readFds, this`writeFds, this`errorFds, this`pending, f`state, f`events
      ensures Valid() && EventBits(f.state) == EventBits(wanted)
      ensures pending == if f.events == 0 then Unlinked(old(pending), f) else old(pending)
      ensures f.events == Kept(old(f.state), old(f.events), wanted)
    {
      hide Has, Masked, With, Without, EventBits, GoodList, Unlinked, TableSize;
      assert Agrees(f);
      NothingLeft(EventBits(wanted));
      var events := EventBits(wanted);
      UnlinkedFacts(pending, f);
      if EventBits(f.state) == events {
        return;
      }
      MaskedFlags(f.state, events);
      PendingCleared(Masked(f.state, events));
      if Has(f.state, FDE_ACTIVE) {
        Update(f, events);
      }
      f.state := Masked(f.state, events);
      if Has(f.state, FDE_PENDING) {
        Withdraw(f, events);
      }
      OthersAgree(f);
    }

    /** A read that is pending and wanted is lost when the write is wanted too. */
    method AddingDropsARead(f: Fdevent)
      requires Valid() && f in registered && f.events == FDE_READ && EventBits(f.state) == FDE_READ
      modifies this`readFds, this`writeFds, this`errorFds, this`pending, f`state, f`events
      ensures Valid() && Has(f.state, FDE_READ) && Has(f.state, FDE_WRITE)
      ensures f.events == 0 && f !in pending
    {
      hide Valid;
      Add(f, FDE_WRITE);
      ReadLost(f.state);
      assert f !in pending by { NotPending(f); }
    }

    static lemma ReadLost(s: flags)
      requires EventBits(s) == EventBits(With(EventBits(FDE_READ), EventBits(FDE_WRITE)))
      ensures Has(s, FDE_READ) && Has(s, FDE_WRITE)
    {
    }

    lemma NotPending(f: Fdevent)
      requires Valid() && f in registered && f.events == 0
      ensures f !in pending
    {
      assert Agrees(f);
    }

    /** fdevent_update. */
    method Update(f: Fdevent, events: flags)
      requires events & FDE_STATEMASK == 0
      modifies this`readFds, this`writeFds, this`errorFds, f`state
      ensures f.state == Masked(old(f.state), events)
      ensures readFds == if Has(events, FDE_READ) then old(readFds) + {f.fd} else old(readFds) - {f.fd}
      ensures writeFds == if Has(events, FDE_WRITE) then old(writeFds) + {f.fd} else old(writeFds) - {f.fd}
      ensures errorFds == if Has(events, FDE_ERROR) then old(errorFds) + {f.fd} else old(errorFds) - {f.fd}
    {
      if Has(events, FDE_READ) {
        readFds := readFds + {f.fd};
      } else {
        readFds := readFds - {f.fd};
      }
      if Has(events, FDE_WRITE) {
        writeFds := writeFds + {f.fd};
      } else {
        writeFds := writeFds - {f.fd};
      }
      if Has(events, FDE_ERROR) {
        errorFds := errorFds + {f.fd};
      } else {
        errorFds := errorFds - {f.fd};
      }
      f.state := Masked(f.state, events);
    }

    // ------------------------------------------- registering, unregistering

    /** fdevent_register.  An fd beyond the table must not exceed 32000. */
    method Register(f: Fdevent) returns (ok: bool)
      requires TableSize(|table|)
      requires |table| == 0 ==> readFds == writeFds == errorFds == {}
      modifies this`table, this`readFds, this`writeFds, this`errorFds
      ensures ok <==> f.fd < old(|table|) || f.fd <= 32000
      ensures ok ==> f.fd < |table| && TableSize(|table|) && old(|table|) <= |table|
      ensures ok ==> |table| == Grown(if old(|table|) == 0 then 256 else old(|table|), f.fd)
      ensures !ok ==> table == old(table)
      ensures forall i :: EntryOf(table, i) == if ok && i == f.fd then f else EntryOf(old(table), i)
      ensures readFds == old(readFds) && writeFds == old(writeFds) && errorFds == old(errorFds)
    {
      if f.fd >= |table| {
        var oldMax, max := |table|, |table|;
        if f.fd > 32000 {
          return false;
        }
        if max == 0 {
          readFds, writeFds, errorFds := {}, {}, {};
          max := 256;
        }
        ghost var first := max;
        while max <= f.fd
          invariant Grown(first, f.fd) == Grown(max, f.fd)
          invariant TableSize(max) && max >= 256 && max >= oldMax
          decreases f.fd - max
        {
          max := max * 2;
        }
        hide TableSize;
        table := table + seq(max - oldMax, _ => null);
      }
      table := table[f.fd := f];
      ok := true;
    }

    /** fdevent_install for an fd that is not installed yet. */
    method Install(f: Fdevent, fd: nat) returns (ok: bool)
      requires Valid() && f !in registered && EntryOf(table, fd) == null
      modifies this, f
      ensures Valid() && (ok <==> fd < old(|table|) || fd <= 32000)
      ensures registered == old(registered) + (if ok then {f} else {})
      ensures ok ==> f.fd == fd && f.state == FDE_ACTIVE && f.events == 0
      ensures forall i :: EntryOf(table, i) == if ok && i == fd then f else EntryOf(old(table), i)
      ensures readFds == old(readFds) && writeFds == old(writeFds) && errorFds == old(errorFds)
      ensures pending == old(pending) && closed == old(closed) && called == old(called)
      ensures |table| == if ok then Grown(if old(|table|) == 0 then 256 else old(|table|), fd) else old(|table|)
      ensures ok ==> !f.forceEof
    {
      hide Has, GoodList, TableSize, With, Grown;
      NewFlags();
      assert |table| == 0 ==> readFds == writeFds == errorFds == {};
      assert f !in pending by { NotListed(f); }
      assert fd !in readFds && fd !in writeFds && fd !in errorFds;
      f.state := FDE_ACTIVE;
      f.events := 0;
      f.fd := fd;
      f.forceEof := false;
      ok := Register(f);
      if ok {
        Regrown(f);
        GoodListGrows(pending, registered, f);
        registered := registered + {f};
        if f.fd >= selectN {
          selectN := f.fd + 1;
        }
        f.state := With(f.state, FDE_ACTIVE);
      }
      OldOnesAgree(f);
    }

    /** The fdevents that were registered before agree as they did. */
    twostate lemma OldOnesAgree(f: Fdevent)
      requires old(Valid()) && f !in old(registered)
      requires forall g :: g in old(registered) ==> unchanged(g)
      requires selectN >= old(selectN) && pending == old(pending)
      requires readFds == old(readFds) && writeFds == old(writeFds) && errorFds == old(errorFds)
      requires forall i :: EntryOf(table, i) == EntryOf(old(table), i)
                        || (EntryOf(table, i) == f && EntryOf(old(table), i) == null)
      requires registered == old(registered) || registered == old(registered) + {f}
      requires (f in registered ==> f.fd < |table| && table[f.fd] == f)
            && forall i :: EntryOf(table, i) == f ==> f in registered && i == f.fd
      ensures forall g :: g in old(registered) ==> Agrees(g)
      ensures Indexed()
    {
      hide Has, GoodList, TableSize;
      forall g | g in old(registered)
        ensures Agrees(g)
      {
        assert old(Agrees(g));
        assert EntryOf(old(table), g.fd) == g;
        assert EntryOf(table, g.fd) == g;
      }
      forall i | 0 <= i < |table| && table[i] != null
        ensures table[i] in registered && table[i].fd == i
      {
        assert EntryOf(table, i) == table[i];
      }
    }

    /** After fdevent_register the sets still have entries behind them. */
    twostate lemma Regrown(f: Fdevent)
      requires old(Backed(table, readFds) && Backed(table, writeFds) && Backed(table, errorFds))
      requires readFds == old(readFds) && writeFds == old(writeFds) && errorFds == old(errorFds)
      requires forall i :: EntryOf(table, i) == EntryOf(old(table), i) || EntryOf(table, i) == f
      ensures Backed(table, readFds) && Backed(table, writeFds) && Backed(table, errorFds)
      ensures forall i :: 0 <= i < |table| && table[i] != null ==>
                table[i] == f || (i < old(|table|) && table[i] == old(table)[i])
    {
      forall i: nat
        ensures i < old(|table|) && old(table)[i] != null ==> i < |table| && table[i] != null
        ensures i < |table| && table[i] != null ==> table[i] == f || (i < old(|table|) && table[i] == old(table)[i])
      {
        assert EntryOf(table, i) == EntryOf(old(table), i) || EntryOf(table, i) == f;
      }
    }

    lemma NewFlags()
      ensures Has(FDE_ACTIVE, FDE_ACTIVE) && With(FDE_ACTIVE, FDE_ACTIVE) == FDE_ACTIVE
      ensures !Has(FDE_ACTIVE, FDE_READ) && !Has(FDE_ACTIVE, FDE_WRITE) && !Has(FDE_ACTIVE, FDE_ERROR)
      ensures !Has(FDE_ACTIVE, FDE_PENDING)
    {
    }

    lemma NotListed(f: Fdevent)
      requires GoodList(pending, registered) && f !in registered
      ensures f !in pending
    {
    }

    static lemma GoodListGrows(ps: seq<Fdevent>, registered: set<Fdevent>, f: Fdevent)
      requires GoodList(ps, registered)
      ensures GoodList(ps, registered + {f})
    {
    }

    /** fdevent_disconnect.  The entry of `f` is still in the table, so the bound
        need not come down below it. */
    method Disconnect(f: Fdevent)
      requires selectN <= |table| && f.fd < selectN && table[f.fd] == f
      requires forall i :: selectN <= i < |table| ==> table[i] == null
      modifies this`readFds, this`writeFds, this`errorFds, this`selectN
      ensures readFds == old(readFds) - {f.fd} && writeFds == old(writeFds) - {f.fd} && errorFds == old(errorFds) - {f.fd}
      ensures 0 < selectN <= old(selectN) && table[selectN - 1] != null
      ensures forall i :: 0 <= i < |table| && table[i] != null ==> i < selectN
    {
      readFds, writeFds, errorFds := readFds - {f.fd}, writeFds - {f.fd}, errorFds - {f.fd};
      var n, i := 0, 0;
      while i < selectN
        invariant 0 <= i <= selectN && 0 <= n <= i && (i > 0 ==> n < i)
        invariant forall j :: 0 <= j < i && table[j] != null ==> j <= n
        invariant i > f.fd ==> table[n] != null
      {
        if table[i] != null {
          n := i;
        }
        i := i + 1;
      }
      selectN := n + 1;
    }

    /** fdevent_unregister.  Both of its failures are ruled out. */
    method Unregister(f: Fdevent)
      requires f.fd < |table| && table[f.fd] == f
      modifies this`table, this`closed
      ensures table == old(table)[f.fd := null]
      ensures closed == old(closed) + if Has(f.state, FDE_DONT_CLOSE) then [] else [f.fd]
    {
      table := table[f.fd := null];
      if !Has(f.state, FDE_DONT_CLOSE) {
        closed := closed + [f.fd];
      }
    }

    /** fdevent_remove of a registered fdevent. */
    method Remove(f: Fdevent)
      requires Valid() && f in registered
      modifies this, f`state, f`events
      ensures Valid() && registered == old(registered) - {f}
      ensures table == old(table)[f.fd := null] && pending == Unlinked(old(pending), f)
      ensures f.state == 0 && f.events == 0
      ensures closed == old(closed) + if old(Has(f.state, FDE_DONT_CLOSE)) then [] else [f.fd]
      ensures called == old(called)
    {
      hide Has, GoodList, Unlinked, TableSize, EventBits;
      assert Agrees(f);
      UnlinkedFacts(pending, f);
      UnlinkedGood(pending, f, registered);
      GoodListShrinks(Unlinked(pending, f), registered, f);
      if Has(f.state, FDE_PENDING) {
        pending := Unlinked(pending, f);
      }
      if Has(f.state, FDE_ACTIVE) {
        Disconnect(f);
        Unregister(f);
      }
      registered := registered - {f};
      f.state := 0;
      f.events := 0;
      TheRestAgrees(f);
    }

    /** The fdevents that are left agree as they did. */
    twostate lemma TheRestAgrees(f: Fdevent)
      requires old(Valid()) && f in old(registered) && registered == old(registered) - {f}
      requires f.fd == old(f.fd) && f.fd < |old(table)| && table == old(table)[f.fd := null]
      requires forall g :: g in registered ==> unchanged(g)
      requires forall g :: g in registered ==> g.fd < |table| && (table[g.fd] != null ==> g.fd < selectN)
      requires readFds == old(readFds) - {f.fd} && writeFds == old(writeFds) - {f.fd} && errorFds == old(errorFds) - {f.fd}
      requires pending == Unlinked(old(pending), f)
      ensures forall g :: g in registered ==> Agrees(g)
      ensures Backed(table, readFds) && Backed(table, writeFds) && Backed(table, errorFds)
      ensures Indexed()
    {
      hide Has, GoodList, Unlinked, TableSize, Shape, Indexed, Backed;
      UnlinkedFacts(old(pending), f);
      RestIsIndexed(f);
      forall g | g in registered
        ensures Agrees(g)
      {
        assert old(Agrees(g)) && old(Agrees(f));
      }
    }

    /** The table without the entry of `f`. */
    twostate lemma RestIsIndexed(f: Fdevent)
      requires old(Valid()) && f in old(registered) && registered == old(registered) - {f}
      requires f.fd == old(f.fd) && f.fd < |old(table)| && table == old(table)[f.fd := null]
      requires forall g :: g in registered ==> unchanged(g)
      requires readFds == old(readFds) - {f.fd} && writeFds == old(writeFds) - {f.fd} && errorFds == old(errorFds) - {f.fd}
      ensures Backed(table, readFds) && Backed(table, writeFds) && Backed(table, errorFds)
      ensures Indexed()
    {
      hide Has, GoodList, TableSize;
      assert old(Agrees(f));
      hide Agrees;
      forall i | 0 <= i < |table| && table[i] != null
        ensures table[i] in registered && table[i].fd == i
      {
        var g := table[i];
        assert i != f.fd && g == old(table)[i] && g in old(registered);
        assert old(g.fd) == i && g != f && g in registered;
      }
    }

    static lemma GoodListShrinks(ps: seq<Fdevent>, registered: set<Fdevent>, f: Fdevent)
      requires GoodList(ps, registered) && f !in ps
      ensures GoodList(ps, registered - {f})
    {
    }

    // ----------------------------------------------------- fdevent_process

    /** The registered fds that fcntl calls bad. */
    ghost function BadFds(bad: set<nat>): set<nat>
      reads this
    {
      set i | i in bad && i < selectN && EntryOf(table, i) != null
    }

    /** fdevent_fd_check: adds the bad fds to a set that was empty. */
    method FdCheck(bad: set<nat>) returns (fds: set<nat>, n: nat)
      requires selectN <= |table|
      ensures fds == BadFds(bad) && n == |fds|
    {
      fds, n := {}, 0;
      var i := 0;
      while i < selectN
        invariant 0 <= i <= selectN && n == |fds|
        invariant fds == set j | j in BadFds(bad) && j < i
      {
        if table[i] != null && i in bad {
          fds := fds + {i};
          n := n + 1;
        }
        i := i + 1;
      }
      assert fds == BadFds(bad);
    }

    /** The part of the loop body for an fd with events: the fdevent takes them
        and joins the list unless it is pending already. */
    method Signal(f: Fdevent, events: flags)
      requires Valid() && f in registered && events != 0
      modifies this`pending, f`state, f`events
      ensures Valid()
      ensures f.events == With(old(f.events), events) && EventBits(f.state) == EventBits(old(f.state))
      ensures pending == old(pending) + if f in old(pending) then [] else [f]
    {
      hide Has, With, Without, EventBits, GoodList, TableSize;
      assert Agrees(f);
      PendingSet(f.state);
      MoreEvents(f.events, events);
      f.events := With(f.events, events);
      if !Has(f.state, FDE_PENDING) {
        GoodListAppend(pending, registered, f);
        f.state := With(f.state, FDE_PENDING);
        pending := pending + [f];
      }
      OthersAgree(f);
    }

    static lemma GoodListAppend(ps: seq<Fdevent>, registered: set<Fdevent>, f: Fdevent)
      requires GoodList(ps, registered) && f in registered && f !in ps
      ensures GoodList(ps + [f], registered)
    {
    }

    // ------------------------------------------------------ fdevent_process

    /** The sets that fdevent_process works through after select. */
    ghost function Reported(outcome: Selected, bad: set<nat>): (set<nat>, set<nat>, set<nat>)
      reads this
    {
      match outcome
      case Ready(rfd, wfd, efd) => if |rfd| + |wfd| + |efd| > 0 then (rfd, wfd, efd) else (BadFds(bad), wfd, efd)
      case BadDescriptor => (BadFds(bad), {}, {})
      case _ => ({}, {}, {})
    }

    /** The events and the wanted events of the registered fdevents. */
    ghost function AllEvents(): map<Fdevent, flags>
      reads this, registered
    {
      map f | f in registered :: f.events
    }

    ghost function AllWanted(): map<Fdevent, flags>
      reads this, registered
    {
      map f | f in registered :: EventBits(f.state)
    }

    /** Since the events were `events` and the list was `listed`, every fdevent
        below `i` has taken what was reported for it, and those that were not
        pending are on the list. */
    ghost predicate Delivered(events: map<Fdevent, flags>, listed: seq<Fdevent>, i: nat,
                              rfd: set<nat>, wfd: set<nat>, efd: set<nat>)
      reads this, registered
    {
      && events.Keys == registered && i <= |table|
      && (forall f :: f in registered ==>
            f.events == With(events[f], if f.fd < i then Signals(f.fd, rfd, wfd, efd) else 0))
      && pending == listed + NewOnes(table, rfd + wfd + efd, listed, i)
    }

    /** The scan of fdevent_process, which stops when `n` events have been seen. */
    method ScanFds(rfd: set<nat>, wfd: set<nat>, efd: set<nat>, count: nat)
      requires Valid() && Backed(table, rfd) && Backed(table, wfd) && Backed(table, efd)
      requires count == |rfd| + |wfd| + |efd|
      modifies this`pending, registered`state, registered`events
      ensures Valid() && Delivered(old(AllEvents()), old(pending), selectN, rfd, wfd, efd)
      ensures AllWanted() == old(AllWanted())
    {
      hide Has, With, EventBits, Valid, Above, Signals, Delivered, AllEvents, AllWanted, Backed;
      var n, i: nat := count, 0;
      ghost var before := AllEvents();
      CountAll(rfd, wfd, efd);
      DeliveredNone(rfd, wfd, efd);
      while i < selectN && n > 0
        invariant i <= selectN && Valid() && Delivered(before, old(pending), i, rfd, wfd, efd)
        invariant AllWanted() == old(AllWanted())
        invariant n == Left(i, rfd, wfd, efd)
      {
        var events;
        events, n := Collect(i, rfd, wfd, efd, n);
        Expose(before, old(pending), i, rfd, wfd, efd);
        label here:
        if events != 0 {
          InPlace(i, rfd, wfd, efd);
          var f := table[i];
          Signal(f, events);
        }
        ValidIsIndexed();
        DeliveredNext@here(before, old(pending), i, rfd, wfd, efd);
        i := i + 1;
      }
      SelectNFits();
      if i < selectN {
        DeliveredAll(before, old(pending), i, rfd, wfd, efd);
      }
    }

    /** The number of events that are reported for `i` and above. */
    ghost function Left(i: nat, rfd: set<nat>, wfd: set<nat>, efd: set<nat>): nat {
      |Above(rfd, i)| + |Above(wfd, i)| + |Above(efd, i)|
    }

    lemma CountAll(rfd: set<nat>, wfd: set<nat>, efd: set<nat>)
      ensures Left(0, rfd, wfd, efd) == |rfd| + |wfd| + |efd|
    {
      AboveStep(rfd, 0);
      AboveStep(wfd, 0);
      AboveStep(efd, 0);
    }

    /** The three tests of the loop body. */
    method Collect(i: nat, rfd: set<nat>, wfd: set<nat>, efd: set<nat>, count: nat) returns (events: flags, n: nat)
      requires count == Left(i, rfd, wfd, efd)
      ensures events == Signals(i, rfd, wfd, efd) && n == Left(i + 1, rfd, wfd, efd)
    {
      AboveStep(rfd, i);
      AboveStep(wfd, i);
      AboveStep(efd, i);
      SignalsTell(i, rfd, wfd, efd);
      hide Above, Signals;
      events, n := 0, count;
      if i in rfd { events := events | FDE_READ; n := n - 1; }
      if i in wfd { events := events | FDE_WRITE; n := n - 1; }
      if i in efd { events := events | FDE_ERROR; n := n - 1; }
    }

    lemma DeliveredNone(rfd: set<nat>, wfd: set<nat>, efd: set<nat>)
      requires Valid()
      ensures Delivered(AllEvents(), pending, 0, rfd, wfd, efd)
    {
      hide With, Signals;
      forall f | f in registered
        ensures With(f.events, 0) == f.events
      {
        MoreEvents(f.events, 0);
      }
      assert pending + [] == pending;
    }

    /** Delivered, spelled out. */
    lemma Expose(before: map<Fdevent, flags>, listed: seq<Fdevent>, i: nat,
                 rfd: set<nat>, wfd: set<nat>, efd: set<nat>)
      requires Valid() && Delivered(before, listed, i, rfd, wfd, efd)
      ensures before.Keys == registered && i <= |table| && selectN <= |table|
      ensures forall f :: f in registered ==>
                f.events == With(before[f], if f.fd < i then Signals(f.fd, rfd, wfd, efd) else 0)
      ensures pending == listed + NewOnes(table, rfd + wfd + efd, listed, i)
    {
    }

    twostate lemma DeliveredNext(new before: map<Fdevent, flags>, new listed: seq<Fdevent>, new i: nat,
                                 new rfd: set<nat>, new wfd: set<nat>, new efd: set<nat>)
      requires Indexed() && i < |table| && table == old(table) && registered == old(registered)
      requires before.Keys == registered && old(pending) == listed + NewOnes(table, rfd + wfd + efd, listed, i)
      requires forall f :: f in registered ==>
                 old(f.events) == With(before[f], if f.fd < i then Signals(f.fd, rfd, wfd, efd) else 0)
      requires forall f :: f in registered ==> f.fd == old(f.fd) && EventBits(f.state) == EventBits(old(f.state))
      requires var s := Signals(i, rfd, wfd, efd);
               && (forall f :: f in registered ==>
                     f.events == if f.fd == i && s != 0 then With(old(f.events), s) else old(f.events))
               && pending == old(pending)
                    + if s == 0 || table[i] == null || table[i] in old(pending) then [] else [table[i]]
      ensures Delivered(before, listed, i + 1, rfd, wfd, efd)
      ensures AllWanted() == old(AllWanted())
    {
      hide With, Signals, EventBits, Valid, NewOnes;
      forall f | f in registered && f.fd == i
        ensures f.events == With(before[f], Signals(i, rfd, wfd, efd))
      {
        MoreEvents(before[f], 0);
      }
      ListedNext(old(pending), listed, i, rfd, wfd, efd);
    }

    lemma ListedNext(o: seq<Fdevent>, listed: seq<Fdevent>, i: nat, rfd: set<nat>, wfd: set<nat>, efd: set<nat>)
      requires Indexed() && i < |table|
      requires o == listed + NewOnes(table, rfd + wfd + efd, listed, i)
      ensures o + (if Signals(i, rfd, wfd, efd) == 0 || table[i] == null || table[i] in o then [] else [table[i]])
           == listed + NewOnes(table, rfd + wfd + efd, listed, i + 1)
    {
      SignalsTell(i, rfd, wfd, efd);
      hide Signals;
      if table[i] != null {
        NotAmongNew(rfd + wfd + efd, listed, i);
      }
      assert o + [] == o;
    }

    lemma DeliveredAll(before: map<Fdevent, flags>, listed: seq<Fdevent>, i: nat,
                       rfd: set<nat>, wfd: set<nat>, efd: set<nat>)
      requires Delivered(before, listed, i, rfd, wfd, efd) && i < selectN <= |table|
      requires Left(i, rfd, wfd, efd) == 0
      ensures Delivered(before, listed, selectN, rfd, wfd, efd)
    {
      hide With, Signals;
      NothingAbove(rfd, i);
      NothingAbove(wfd, i);
      NothingAbove(efd, i);
      NoneLeft(table, rfd + wfd + efd, listed, i, selectN);
      forall f | f in registered && f.fd >= i
        ensures Signals(f.fd, rfd, wfd, efd) == 0
      {
        SignalsTell(f.fd, rfd, wfd, efd);
      }
    }

    /** An fd with events is registered: the failure "missing fde" is ruled out. */
    lemma InPlace(i: nat, rfd: set<nat>, wfd: set<nat>, efd: set<nat>)
      requires Valid() && Backed(table, rfd) && Backed(table, wfd) && Backed(table, efd)
      requires Signals(i, rfd, wfd, efd) != 0
      ensures i < |table| && table[i] != null && table[i] in registered && table[i].fd == i
      ensures forall g :: g in registered && g.fd == i ==> g == table[i]
    {
      SignalsTell(i, rfd, wfd, efd);
      hide Has, Signals;
      assert forall g :: g in registered ==> Agrees(g);
    }

    /** An fdevent is not put on the list before the scan comes to its fd. */
    lemma NotAmongNew(ready: set<nat>, listed: seq<Fdevent>, i: nat)
      requires Indexed() && i < |table| && table[i] != null
      ensures table[i] !in NewOnes(table, ready, listed, i)
    {
      hide Has, NewOnes;
      assert forall j :: 0 <= j < i && table[j] != null ==> table[j].fd == j;
      NotBelow(table, ready, listed, i, table[i]);
    }

    /** fdevent_process: one select, then a scan that hands every reported event to
        its fdevent and puts each of them on the list once. */
    method Process(outcome: Selected, bad: set<nat>)
      requires Valid()
      requires outcome.Ready? ==> outcome.rfd <= readFds && outcome.wfd <= writeFds && outcome.efd <= errorFds
      modifies this`pending, registered`state, registered`events
      ensures Valid() && AllWanted() == old(AllWanted())
      ensures var (rfd, wfd, efd) := old(Reported(outcome, bad));
              Delivered(old(AllEvents()), old(pending), selectN, rfd, wfd, efd)
    {
      hide Valid, Delivered, AllEvents, AllWanted, Signals, Reported, Backed;
      if outcome.Interrupted? || outcome.OtherError? {
        NothingReported(outcome, bad);
        return;
      }
      var rfd, wfd, efd, n := AfterSelect(outcome, bad);
      ScanFds(rfd, wfd, efd, n);
    }

    /** The sets after select, with the reads that are faked for bad fds. */
    method AfterSelect(outcome: Selected, bad: set<nat>)
      returns (rfd: set<nat>, wfd: set<nat>, efd: set<nat>, n: nat)
      requires Valid() && (outcome.Ready? || outcome.BadDescriptor?)
      requires outcome.Ready? ==> outcome.rfd <= readFds && outcome.wfd <= writeFds && outcome.efd <= errorFds
      ensures (rfd, wfd, efd) == Reported(outcome, bad) && n == |rfd| + |wfd| + |efd|
      ensures Backed(table, rfd) && Backed(table, wfd) && Backed(table, efd)
    {
      SetsAreBacked();
      hide Valid;
      rfd, wfd, efd, n := {}, {}, {}, 0;
      if outcome.Ready? {
        rfd, wfd, efd := outcome.rfd, outcome.wfd, outcome.efd;
        n := |rfd| + |wfd| + |efd|;
      }
      if n <= 0 {
        assert wfd == {} && efd == {};
        rfd, n := FdCheck(bad);
      }
    }

    /** What a registered fdevent hears of a call of select: what select reported, or
        a read if select reported nothing and the fd is bad, or nothing. */
    lemma ReportedExactly(outcome: Selected, bad: set<nat>, f: Fdevent)
      requires Valid() && f in registered
      ensures var (rfd, wfd, efd) := Reported(outcome, bad);
              var events := Signals(f.fd, rfd, wfd, efd);
              var empty := outcome.BadDescriptor? || outcome == Ready({}, {}, {});
              && (Has(events, FDE_READ) <==>
                    (outcome.Ready? && f.fd in outcome.rfd) || (empty && f.fd in bad))
              && (Has(events, FDE_WRITE) <==> outcome.Ready? && f.fd in outcome.wfd)
              && (Has(events, FDE_ERROR) <==> outcome.Ready? && f.fd in outcome.efd)
    {
      var (rfd, wfd, efd) := Reported(outcome, bad);
      SignalsExactly(f.fd, rfd, wfd, efd);
      hide Signals, Has;
      assert Agrees(f);
    }

    lemma NothingReported(outcome: Selected, bad: set<nat>)
      requires Valid() && (outcome.Interrupted? || outcome.OtherError?)
      ensures var (rfd, wfd, efd) := Reported(outcome, bad);
              Delivered(AllEvents(), pending, selectN, rfd, wfd, efd)
    {
      hide Valid, Delivered, AllEvents, Signals;
      DeliveredNone({}, {}, {});
      SelectNFits();
      if selectN > 0 {
        CountAll({}, {}, {});
        DeliveredAll(AllEvents(), pending, 0, {}, {}, {});
      }
    }

    lemma SetsAreBacked()
      requires Valid()
      ensures Backed(table, readFds) && Backed(table, writeFds) && Backed(table, errorFds) && selectN <= |table|
    {
    }

    /** After a scan every reported fd has its fdevent on the list, exactly once. */
    lemma ReportedAreListed(before: map<Fdevent, flags>, listed: seq<Fdevent>, i: nat,
                            rfd: set<nat>, wfd: set<nat>, efd: set<nat>)
      requires Valid() && Delivered(before, listed, selectN, rfd, wfd, efd)
      requires Backed(table, rfd) && Backed(table, wfd) && Backed(table, efd)
      requires i in rfd || i in wfd || i in efd
      ensures i < |table| && table[i] != null && table[i] in pending
      ensures forall j, k :: 0 <= j < k < |pending| ==> pending[j] != pending[k]
    {
      SignalsTell(i, rfd, wfd, efd);
      InPlace(i, rfd, wfd, efd);
      var f: Fdevent := table[i];
      assert Agrees(f);
      SomeEvents(before[f], Signals(i, rfd, wfd, efd));
      hide With, Signals, Has;
    }

    static lemma SomeEvents(s: flags, t: flags)
      requires t != 0
      ensures With(s, t) != 0
    {
    }

    // --------------------------------------------------------- fdevent_loop

    /** fdevent_plist_dequeue and fdevent_call_fdfunc, up to the call: the events
        that the callback gets are never none. */
    method Dispatch() returns (fd: nat, events: flags)
      requires Valid() && pending != []
      modifies this`pending, this`called, registered`state, registered`events
      ensures Valid() && pending == old(pending)[1..]
      ensures fd == old(pending[0].fd) && events == old(pending[0].events) != 0
      ensures forall g :: g in registered && g != old(pending)[0] ==> unchanged(g)
      ensures called == old(called) + [(fd, events)] && old(pending)[0].fd == fd
      ensures old(View()).pending != [] && Good(old(View()))
      ensures (fd, events) == CallOf(old(View())) && View() == Dispatched(old(View()))
    {
      hide Has, With, Without, EventBits, TableSize, View, Good, Dispatched, CallOf;
      IsGood();
      var f := pending[0];
      assert f in pending && Agrees(f);
      HeadLeaves(pending, registered);
      PendingCleared(f.state);
      pending := pending[1..];
      events := f.events;
      f.events := 0;
      fd := f.fd;
      called := called + [(fd, events)];
      f.state := Without(f.state, FDE_PENDING);
      OthersAgree(f);
      DispatchViews();
    }

    twostate lemma DispatchViews()
      requires old(Valid()) && Good(old(View())) && Valid() && old(pending) != [] && registered == old(registered)
      requires table == old(table) && pending == old(pending)[1..] && closed == old(closed)
      requires forall g :: g in registered && g != old(pending)[0] ==> unchanged(g)
      requires var f := old(pending)[0];
               && f.fd == old(f.fd) && ValueOf(f) == old(ValueOf(f)).(events := 0)
               && called == old(called) + [(f.fd, old(f.events))]
      ensures old(View()).pending != []
      ensures CallOf(old(View())) == (old(pending[0].fd), old(pending[0].events))
      ensures View() == Dispatched(old(View()))
    {
      hide Has, TableSize, EventBits;
      var f := old(pending)[0];
      OneChanged(f);
      var ps := old(pending);
      assert forall g :: g in ps ==> g in registered;
      SameFds(ps);
      assert FdsOf(ps[1..]) == FdsOf(ps)[1..];
    }

    static lemma HeadLeaves(ps: seq<Fdevent>, registered: set<Fdevent>)
      requires GoodList(ps, registered) && ps != []
      ensures GoodList(ps[1..], registered) && ps[0] !in ps[1..] && ps[0] in registered
      ensures forall g :: g in ps[1..] <==> g in ps && g != ps[0]
    {
      assert ps == [ps[0]] + ps[1..];
    }

    /** fdevent_add and fdevent_del. */
    method Add(f: Fdevent, events: flags)
      requires Valid() && f in registered
      modifies this`readFds, this`writeFds, this`errorFds, this`pending, f`state, f`events
      ensures Valid() && EventBits(f.state) == EventBits(With(EventBits(old(f.state)), EventBits(events)))
      ensures f.events == Kept(old(f.state), old(f.events), With(EventBits(old(f.state)), EventBits(events)))
      ensures f.fd in old(View()).fdes && View() == Added(old(View()), f.fd, events)
    {
      hide Valid, View, EventBits, With, WantedSet, Kept, Has, Unlinked, ValueOf;
      IsEntry(f);
      var wanted := With(EventBits(f.state), EventBits(events));
      Set(f, wanted);
      SetViews(f, wanted);
    }

    method Del(f: Fdevent, events: flags)
      requires Valid() && f in registered
      modifies this`readFds, this`writeFds, this`errorFds, this`pending, f`state, f`events
      ensures Valid() && EventBits(f.state) == EventBits(Without(EventBits(old(f.state)), EventBits(events)))
      ensures f.events == Kept(old(f.state), old(f.events), Without(EventBits(old(f.state)), EventBits(events)))
      ensures f.fd in old(View()).fdes && View() == Deleted(old(View()), f.fd, events)
    {
      hide Valid, View, EventBits, Without, WantedSet, Kept, Has, Unlinked, ValueOf;
      IsEntry(f);
      var wanted := Without(EventBits(f.state), EventBits(events));
      Set(f, wanted);
      SetViews(f, wanted);
    }

    /** A registered fdevent in the value of the loop. */
    lemma IsEntry(f: Fdevent)
      requires Valid() && f in registered
      ensures f.fd in View().fdes && View().fdes[f.fd] == ValueOf(f)
      ensures EventBits(View().fdes[f.fd].wanted) == EventBits(f.state)
    {
      hide Has, EventBits;
      EventBitsTwice(f.state);
      assert Agrees(f);
    }

    /** Removing and installing, seen as steps of the value. */
    twostate lemma RemoveViews(f: Fdevent)
      requires old(Valid()) && Valid() && f in old(registered) && registered == old(registered) - {f}
      requires f.fd < |old(table)| && table == old(table)[f.fd := null]
      requires pending == Unlinked(old(pending), f) && called == old(called)
      requires f.fd == old(f.fd) && forall g :: g in registered ==> unchanged(g)
      requires closed == old(closed) + if old(Has(f.state, FDE_DONT_CLOSE)) then [] else [f.fd]
      ensures f.fd in old(View()).fdes && View() == Removed(old(View()), f.fd)
    {
      hide Has, TableSize, EventBits, GoodList;
      assert old(Agrees(f));
      EventBitsTell(old(f.state));
      assert forall i: nat :: i < |table| && table[i] != null ==> i != f.fd && table[i] == old(table)[i];
      RestOfList(f);
    }

    twostate lemma RestOfList(f: Fdevent)
      requires old(Valid()) && Valid() && f in old(registered) && registered == old(registered) - {f}
      requires f.fd == old(f.fd) && forall g :: g in registered ==> unchanged(g)
      ensures FdsOf(Unlinked(old(pending), f)) == Dropped(old(View()).pending, f.fd)
    {
      hide Has, TableSize, EventBits;
      var ps := old(pending);
      forall g | g in ps
        ensures g in old(registered) && g.fd == old(g.fd)
      {
        assert g == f || g in registered;
      }
      SameFds(ps);
      forall g | g in ps && g.fd == f.fd
        ensures g == f
      {
        assert old(Agrees(g)) && old(Agrees(f));
      }
      UnlinkedFds(ps, f);
    }

    twostate lemma InstallViews(new f: Fdevent, new fd: nat, new ok: bool)
      requires old(Valid()) && Valid() && f !in old(registered)
      requires forall g :: g in old(registered) ==> unchanged(g)
      requires ok <==> fd < |old(table)| || fd <= 32000
      requires registered == old(registered) + (if ok then {f} else {})
      requires ok ==> f.fd == fd && EventBits(f.state) == 0 && f.events == 0 && !f.forceEof
      requires forall i :: EntryOf(table, i) == if ok && i == fd then f else EntryOf(old(table), i)
      requires pending == old(pending) && closed == old(closed) && called == old(called)
      requires |table| == if ok then Grown(if |old(table)| == 0 then 256 else |old(table)|, fd) else |old(table)|
      requires EntryOf(old(table), fd) == null
      ensures fd !in old(View()).fdes && View() == Installed(old(View()), fd)
    {
      hide Has, TableSize, EventBits, Grown;
      var ps := old(pending);
      assert forall g :: g in ps ==> g in old(registered);
      SameFds(ps);
      OldEntries(f, fd, ok);
    }

    /** The entries that were there before, and the new one. */
    twostate lemma OldEntries(new f: Fdevent, new fd: nat, new ok: bool)
      requires old(Valid()) && Valid() && f !in old(registered)
      requires forall g :: g in old(registered) ==> unchanged(g)
      requires ok ==> f.fd == fd && EventBits(f.state) == 0 && f.events == 0 && !f.forceEof
      requires forall i :: EntryOf(table, i) == if ok && i == fd then f else EntryOf(old(table), i)
      requires EntryOf(old(table), fd) == null
      ensures fd !in old(View()).fdes
      ensures View().fdes == if ok then old(View()).fdes[fd := Fde(0, 0, false)] else old(View()).fdes
    {
      hide Has, TableSize, EventBits, Agrees, Shape, Backed;
      forall i: nat
        ensures i in View().fdes <==> (ok && i == fd) || i in old(View()).fdes
        ensures i in old(View()).fdes && !(ok && i == fd) ==> View().fdes[i] == old(View()).fdes[i]
      {
        assert EntryOf(table, i) == if ok && i == fd then f else EntryOf(old(table), i);
        if i < |old(table)| && old(table)[i] != null {
          assert old(table)[i] in old(registered);
        }
      }
      assert EntryOf(table, fd) == if ok then f else EntryOf(old(table), fd);
    }

    /** One thing a callback does to the loop. */
    method Act(a: Action)
      requires Valid()
      modifies this, registered
      ensures Valid() && fresh(registered - old(registered))
      ensures View() == Acted(old(View()), a)
      decreases a
    {
      hide Valid, View, Added, Deleted, Removed, Installed, Has;
      if a.fd < |table| && table[a.fd] != null {
        InTable(a.fd);
        var f := table[a.fd];
        match a {
          case AddEvents(_, events) => Add(f, events);
          case DelEvents(_, events) => Del(f, events);
          case RemoveFd(_) => 
            Remove(f);
            RemoveViews(f);
          case SubprocExit(_, events, subprocFd, unread, callback) =>
            SubprocEvent(a.fd, events, subprocFd, unread, callback);
          case InstallFd(_) =>
        }
      } else {
        NotInTable(a.fd);
        if a.InstallFd? {
          var f := new Fdevent();
          var ok := Install(f, a.fd);
          NoEventsYet();
          InstallViews(f, a.fd, ok);
        }
      }
    }

    static lemma NoEventsYet()
      ensures EventBits(FDE_ACTIVE) == 0
    {
    }

    /** A callback is any sequence of such things. */
    method Callback(script: Script)
      requires Valid()
      modifies this, registered
      ensures Valid() && fresh(registered - old(registered))
      ensures View() == Ran(old(View()), script)
      decreases script, 0
    {
      hide Valid, View, Acted;
      match script {
        case Return =>
        case Then(a, rest) =>
          Act(a);
          Callback(rest);
      }
    }

    /** The inner loop of fdevent_loop, whatever the callbacks do, the exit handler
        of subprocesses among them: it comes to an end with nothing pending.
        `scripts` are the callbacks in the order of the calls. */
    method Drain(scripts: seq<Script>) returns (calls: seq<(nat, flags)>)
      requires Valid()
      modifies this, registered
      ensures Valid() && pending == [] && fresh(registered - old(registered))
      ensures Good(old(View())) && Drains(old(View()), scripts, calls)
      ensures View() == After(old(View()), scripts, |calls|)
    {
      hide Valid, View, Good, Ran, CallOf, Dispatched, After;
      IsGood();
      ghost var start := View();
      calls := [];
      FromTheStart(start, scripts);
      while pending != []
        invariant Valid() && fresh(registered - old(registered))
        invariant View() == After(start, scripts, |calls|)
        invariant forall k :: 0 <= k < |calls| ==>
                    After(start, scripts, k).pending != [] && calls[k] == CallOf(After(start, scripts, k))
        decreases |View().pending|
      {
        HeadIsRegistered();
        ghost var before := View();
        RoundIs(start, scripts, |calls|);
        NextIsShorter(before, After(start, scripts, |calls| + 1));
        var fd, events := Dispatch();
        var k := |calls|;
        calls := calls + [(fd, events)];
        Callback(if k < |scripts| then scripts[k] else Return);
      }
      EmptyList();
    }

    /** What one turn of fdevent_loop should call: every fdevent that select has reported,
        with what was reported, unless an earlier callback works on it; and nothing that
        was not reported. */
    static ghost predicate AnswersTo(calls: seq<(nat, flags)>, scripts: seq<Script>,
                                     rfd: set<nat>, wfd: set<nat>, efd: set<nat>) {
      && (forall i :: (i in rfd || i in wfd || i in efd) && LeftAlone(scripts, i, |scripts|) ==>
            (i, Signals(i, rfd, wfd, efd)) in calls)
      && forall k :: 0 <= k < |calls| ==> calls[k].0 in rfd || calls[k].0 in wfd || calls[k].0 in efd
    }

    /** One turn of fdevent_loop. */
    method Turn(outcome: Selected, bad: set<nat>, scripts: seq<Script>) returns (calls: seq<(nat, flags)>)
      requires Valid() && pending == []
      requires outcome.Ready? ==> outcome.rfd <= readFds && outcome.wfd <= writeFds && outcome.efd <= errorFds
      modifies this, registered
      ensures Valid() && pending == [] && fresh(registered - old(registered))
      ensures var (rfd, wfd, efd) := old(Reported(outcome, bad)); AnswersTo(calls, scripts, rfd, wfd, efd)
    {
      hide Valid, Reported, AllEvents, AllWanted, Delivered, Backed, View, Drains, Good, After, AnswersTo;
      ghost var (rfd, wfd, efd) := Reported(outcome, bad);
      ghost var before := AllEvents();
      ReportedIsBacked(outcome, bad);
      NoEvents();
      Process(outcome, bad);
      IsGood();
      ghost var start := View();
      ListedAre(before, rfd, wfd, efd);
      calls := Drain(scripts);
      TurnAnswers(start, scripts, calls, rfd, wfd, efd);
    }

    lemma ReportedIsBacked(outcome: Selected, bad: set<nat>)
      requires Valid()
      requires outcome.Ready? ==> outcome.rfd <= readFds && outcome.wfd <= writeFds && outcome.efd <= errorFds
      ensures var (rfd, wfd, efd) := Reported(outcome, bad);
              Backed(table, rfd) && Backed(table, wfd) && Backed(table, efd)
    {
    }

    lemma NoEvents()
      requires Valid() && pending == []
      ensures AllEvents().Keys == registered && forall f :: f in registered ==> AllEvents()[f] == 0
    {
      forall f | f in registered
        ensures AllEvents()[f] == 0
      {
        assert Agrees(f);
      }
    }

    /** The list is what was reported, with its events. */
    ghost predicate ListIs(rfd: set<nat>, wfd: set<nat>, efd: set<nat>)
      reads this, registered
      requires Valid()
    {
      && (forall i :: i in rfd || i in wfd || i in efd ==>
            i in View().pending && i in View().fdes && View().fdes[i].events == Signals(i, rfd, wfd, efd))
      && forall i :: i in View().pending ==> i in rfd || i in wfd || i in efd
    }

    lemma ListedAre(before: map<Fdevent, flags>, rfd: set<nat>, wfd: set<nat>, efd: set<nat>)
      requires Valid() && Delivered(before, [], selectN, rfd, wfd, efd)
      requires forall f :: f in before ==> before[f] == 0
      requires Backed(table, rfd) && Backed(table, wfd) && Backed(table, efd)
      ensures ListIs(rfd, wfd, efd)
    {
      hide Valid, Backed, Signals, View;
      forall i | i in rfd || i in wfd || i in efd
        ensures i in View().pending && i in View().fdes && View().fdes[i].events == Signals(i, rfd, wfd, efd)
      {
        ListedIs(before, rfd, wfd, efd, i);
      }
      forall i | i in View().pending
        ensures i in rfd || i in wfd || i in efd
      {
        OnlyReported(before, rfd, wfd, efd, i);
      }
    }

    lemma ListedIs(before: map<Fdevent, flags>, rfd: set<nat>, wfd: set<nat>, efd: set<nat>, i: nat)
      requires Valid() && Delivered(before, [], selectN, rfd, wfd, efd)
      requires forall f :: f in before ==> before[f] == 0
      requires Backed(table, rfd) && Backed(table, wfd) && Backed(table, efd)
      requires i in rfd || i in wfd || i in efd
      ensures i in View().pending && i in View().fdes && View().fdes[i].events == Signals(i, rfd, wfd, efd)
    {
      ReportedAreListed(before, [], i, rfd, wfd, efd);
      hide Valid, Backed, Signals, View, With, Has;
      InTable(i);
      IsEntry(table[i]);
      MoreEvents(0, Signals(i, rfd, wfd, efd));
      assert i < selectN by { BelowBound(table[i]); }
    }

    lemma BelowBound(f: Fdevent)
      requires Valid() && f in registered
      ensures f.fd < selectN
    {
      assert Agrees(f);
    }

    lemma OnlyReported(before: map<Fdevent, flags>, rfd: set<nat>, wfd: set<nat>, efd: set<nat>, i: nat)
      requires Valid() && Delivered(before, [], selectN, rfd, wfd, efd) && i in View().pending
      ensures i in rfd || i in wfd || i in efd
    {
      hide Valid, Delivered, View, NewOnes, Indexed;
      PendingAreNew(before, rfd, wfd, efd);
      SomePending(i);
      var g :| g in pending && g.fd == i;
      NewOnesAreReady(table, rfd + wfd + efd, [], selectN, g);
      var j :| 0 <= j < selectN && table[j] == g && j in rfd + wfd + efd;
      assert j == i by { InTable(j); }
    }

    lemma PendingAreNew(before: map<Fdevent, flags>, rfd: set<nat>, wfd: set<nat>, efd: set<nat>)
      requires Delivered(before, [], selectN, rfd, wfd, efd)
      ensures selectN <= |table| && pending == NewOnes(table, rfd + wfd + efd, [], selectN)
    {
      hide NewOnes, Signals, With;
    }

    lemma SomePending(i: nat)
      requires Valid() && i in View().pending
      ensures exists g :: g in pending && g.fd == i
    {
      hide Valid, Entries;
      var k :| 0 <= k < |pending| && View().pending[k] == i;
      assert pending[k] in pending;
    }

    static lemma TurnAnswers(start: Loop, scripts: seq<Script>, calls: seq<(nat, flags)>,
                             rfd: set<nat>, wfd: set<nat>, efd: set<nat>)
      requires Good(start) && Drains(start, scripts, calls)
      requires forall i :: i in rfd || i in wfd || i in efd ==>
                 i in start.pending && i in start.fdes && start.fdes[i].events == Signals(i, rfd, wfd, efd)
      requires forall i :: i in start.pending ==> i in rfd || i in wfd || i in efd
      ensures AnswersTo(calls, scripts, rfd, wfd, efd)
    {
      hide Good, Drains, Signals, LeftAlone;
      CallsInOrder(start, scripts, calls);
      OnlyIs(start.pending, Elements(Fds(calls)));
      forall k | 0 <= k < |calls|
        ensures calls[k].0 in rfd || calls[k].0 in wfd || calls[k].0 in efd
      {
        assert Fds(calls)[k] in Fds(calls);
      }
      forall i | (i in rfd || i in wfd || i in efd) && LeftAlone(scripts, i, |scripts|)
        ensures (i, Signals(i, rfd, wfd, efd)) in calls
      {
        UntouchedIsCalled(start, scripts, calls, i);
      }
    }

    static lemma FromTheStart(l: Loop, scripts: seq<Script>)
      requires Good(l)
      ensures After(l, scripts, 0) == l
    {
    }

    static lemma NextIsShorter(l: Loop, r: Loop)
      requires Good(l) && l.pending != [] && Follows(r, Dispatched(l))
      ensures |r.pending| < |l.pending|
    {
      OnlyIs(Dispatched(l).pending, Elements(r.pending));
    }

    /** The events of the fdevents and the list go together. */
    lemma IsGood()
      requires Valid()
      ensures Good(View())
    {
      hide Has, TableSize, EventBits;
      var l := View();
      assert forall i :: 0 <= i < |pending| ==> pending[i] in registered && l.pending[i] == pending[i].fd;
      assert forall f :: f in registered ==> Agrees(f);
      assert Distinct(l.pending);
      forall fd | fd in l.fdes
        ensures l.fdes[fd].events != 0 <==> fd in l.pending
      {
        InTable(fd);
        assert Agrees(table[fd]);
      }
    }

    lemma HeadIsRegistered()
      requires Valid() && pending != []
      ensures pending[0] in registered && View().pending != []
    {
    }

    lemma EmptyList()
      requires Valid() && pending == []
      ensures View().pending == []
    {
    }

    /** fdevent_subproc_event_func, itself a callback: it may run the callback of
        another fdevent, which is marked as pending meanwhile without being on
        the list. */
    method SubprocEvent(fd: nat, events: flags, subprocFd: nat, unread: bool, callback: Script)
      requires Valid() && fd < |table| && table[fd] != null
      modifies this, registered
      ensures Valid() && fresh(registered - old(registered))
      ensures fd in old(View()).fdes
      ensures View() == Exited(Added(old(View()), fd, FDE_READ), events, subprocFd, unread, callback)
      decreases callback, 1
    {
      hide Has, With, Without, EventBits, Valid, View, Added, Ran, Faked;
      InTable(fd);
      Add(table[fd], FDE_READ);
      if !Has(events, FDE_READ) {
        return;
      }
      if subprocFd >= |table| || table[subprocFd] == null {
        NotInTable(subprocFd);
        return;
      }
      var g := table[subprocFd];
      InTable(subprocFd);
      ForceEof(g);
      if unread {
        return;
      }
      var calls := Nudge(g);
      if calls {
        Callback(callback);
      }
    }

    lemma NotInTable(fd: nat)
      requires Valid() && EntryOf(table, fd) == null
      ensures fd !in View().fdes
    {
    }

    lemma InTable(fd: nat)
      requires Valid() && fd < |table| && table[fd] != null
      ensures table[fd] in registered && table[fd].fd == fd
      ensures fd in View().fdes && (fd in View().pending <==> table[fd] in pending)
    {
      hide Has, TableSize;
      var f := table[fd];
      if fd in View().pending {
        var i :| 0 <= i < |pending| && View().pending[i] == fd;
        assert pending[i].fd == fd && pending[i] in registered;
        assert Agrees(pending[i]);
      }
      if f in pending {
        var i :| 0 <= i < |pending| && pending[i] == f;
        assert View().pending[i] == fd;
      }
    }

    method ForceEof(g: Fdevent)
      requires Valid() && g in registered
      modifies g`forceEof
      ensures Valid()
      ensures g.fd in old(View()).fdes && View() == Forced(old(View()), g.fd)
    {
      hide Has, GoodList, TableSize, View;
      g.forceEof := true;
      forall f | f in registered
        ensures Agrees(f)
      {
        assert old(Agrees(f));
      }
      OneViews(g);
    }

    /** The value if nothing but one fdevent has changed. */
    twostate lemma OneViews(g: Fdevent)
      requires old(Valid()) && Valid() && g in registered && registered == old(registered)
      requires table == old(table) && pending == old(pending) && closed == old(closed) && called == old(called)
      requires forall f :: f in registered && f != g ==> unchanged(f)
      requires g.fd == old(g.fd)
      ensures g.fd in old(View()).fdes && old(View()).fdes[g.fd] == old(ValueOf(g))
      ensures View() == old(View()).(fdes := old(View()).fdes[g.fd := ValueOf(g)])
    {
      OneChanged(g);
      hide Has, EventBits, TableSize;
      SameFds(old(pending));
    }

    /** The end of fdevent_subproc_event_func: a read is faked.  Unless the
        fdevent is pending anyway its callback is called at once, and the mark
        that was set for the call is gone by then. */
    method Nudge(g: Fdevent) returns (calls: bool)
      requires Valid() && g in registered
      modifies this`called, g`state, g`events
      ensures Valid() && calls == !old(g in pending)
      ensures called == old(called) + if calls then [(g.fd, FDE_READ)] else []
      ensures EventBits(g.state) == EventBits(old(g.state))
      ensures g.events == if calls then old(g.events) else With(old(g.events), FDE_READ)
      ensures g.fd in old(View()).fdes && (calls <==> g.fd !in old(View()).pending)
      ensures View() == if calls then old(View()).(called := old(View()).called + [(g.fd, FDE_READ)])
                        else Faked(old(View()), g.fd)
    {
      hide Has, With, Without, EventBits, GoodList, TableSize, View;
      ItsPlace(g);
      assert Agrees(g);
      MoreEvents(g.events, FDE_READ);
      PendingSet(g.state);
      PendingCleared(With(g.state, FDE_PENDING));
      g.events := With(g.events, FDE_READ);
      calls := !Has(g.state, FDE_PENDING);
      if calls {
        g.state := With(g.state, FDE_PENDING);
        called := called + [(g.fd, g.events)];
        g.events := 0;
        g.state := Without(g.state, FDE_PENDING);
      }
      OthersAgree(g);
      NudgeViews(g, calls);
    }

    lemma ItsPlace(g: Fdevent)
      requires Valid() && g in registered
      ensures g.fd in View().fdes && (g in pending <==> g.fd in View().pending)
    {
      assert Agrees(g);
      hide Has, Agrees, View;
      InTable(g.fd);
    }

    twostate lemma NudgeViews(g: Fdevent, new calls: bool)
      requires old(Valid()) && Valid() && g in registered && registered == old(registered)
      requires table == old(table) && pending == old(pending) && closed == old(closed)
      requires forall f :: f in registered && f != g ==> unchanged(f)
      requires g.fd == old(g.fd) && g.forceEof == old(g.forceEof) && EventBits(g.state) == EventBits(old(g.state))
      requires called == old(called) + if calls then [(g.fd, FDE_READ)] else []
      requires g.events == if calls then old(g.events) else With(old(g.events), FDE_READ)
      ensures g.fd in old(View()).fdes
      ensures View() == if calls then old(View()).(called := old(View()).called + [(g.fd, FDE_READ)])
                        else Faked(old(View()), g.fd)
    {
      OneChanged(g);
      hide Has, EventBits, TableSize, With;
      SameFds(old(pending));
    }

    lemma ValidIsIndexed()
      requires Valid()
      ensures Indexed()
    {
    }

    lemma SelectNFits()
      requires Valid()
      ensures selectN <= |table|
    {
    }

    lemma NothingAbove(s: set<nat>, i: nat)
      requires |Above(s, i)| == 0
      ensures forall j :: j in s ==> j < i
    {
      forall j | j in s
        ensures j < i
      {
        assert j >= i ==> j in Above(s, i);
      }
    }
  }

  /** What select came back with. */
  datatype Selected =
    | Ready(rfd: set<nat>, wfd: set<nat>, efd: set<nat>)
    | Interrupted
    | BadDescriptor
    | OtherError

  /** The events that three sets report for an fd. */
  function Signals(i: nat, rfd: set<nat>, wfd: set<nat>, efd: set<nat>): flags {
    (if i in rfd then FDE_READ else 0) | (if i in wfd then FDE_WRITE else 0) | (if i in efd then FDE_ERROR else 0)
  }

  lemma SignalsTell(i: nat, rfd: set<nat>, wfd: set<nat>, efd: set<nat>)
    ensures Signals(i, rfd, wfd, efd) != 0 <==> i in rfd || i in wfd || i in efd
    ensures var r, w, e := if i in rfd then FDE_READ else 0, if i in wfd then FDE_WRITE else 0,
                           if i in efd then FDE_ERROR else 0;
            Signals(i, rfd, wfd, efd) == ((0 | r) | w) | e
  {
  }

  lemma SignalsExactly(i: nat, rfd: set<nat>, wfd: set<nat>, efd: set<nat>)
    ensures Has(Signals(i, rfd, wfd, efd), FDE_READ) <==> i in rfd
    ensures Has(Signals(i, rfd, wfd, efd), FDE_WRITE) <==> i in wfd
    ensures Has(Signals(i, rfd, wfd, efd), FDE_ERROR) <==> i in efd
  {
  }

  /** The fdevents below `i` that are ready and not on the list, in order. */
  function NewOnes(table: seq<Fdevent?>, ready: set<nat>, listed: seq<Fdevent>, i: nat): seq<Fdevent>
    requires i <= |table|
  {
    if i == 0 then []
    else
      NewOnes(table, ready, listed, i - 1) +
      if i - 1 in ready && table[i - 1] != null && table[i - 1] !in listed then [table[i - 1]] else []
  }

  /** The members of a set that are not below `i`. */
  function Above(s: set<nat>, i: nat): set<nat> {
    set j | j in s && j >= i
  }

  lemma AboveStep(s: set<nat>, i: nat)
    ensures |Above(s, i)| == |Above(s, i + 1)| + if i in s then 1 else 0
    ensures Above(s, 0) == s
  {
    assert Above(s, i) == Above(s, i + 1) + if i in s then {i} else {};
  }

  lemma {:induction false} NoneLeft(table: seq<Fdevent?>, ready: set<nat>, listed: seq<Fdevent>, i: nat, n: nat)
    requires i <= n <= |table| && forall j :: j in ready ==> j < i
    ensures NewOnes(table, ready, listed, n) == NewOnes(table, ready, listed, i)
  {
    if i < n {
      NoneLeft(table, ready, listed, i, n - 1);
    }
  }

  lemma {:induction false} NotBelow(table: seq<Fdevent?>, ready: set<nat>, listed: seq<Fdevent>, i: nat, f: Fdevent)
    requires i <= |table| && forall j :: 0 <= j < i ==> table[j] != f
    ensures f !in NewOnes(table, ready, listed, i)
  {
    if i > 0 {
      NotBelow(table, ready, listed, i - 1, f);
    }
  }

  lemma {:induction false} NewOnesAreReady(table: seq<Fdevent?>, ready: set<nat>, listed: seq<Fdevent>, i: nat, f: Fdevent)
    requires i <= |table| && f in NewOnes(table, ready, listed, i)
    ensures exists j :: 0 <= j < i && table[j] == f && j in ready
  {
    if f in NewOnes(table, ready, listed, i - 1) {
      NewOnesAreReady(table, ready, listed, i - 1, f);
    } else {
      assert table[i - 1] == f && i - 1 in ready;
    }
  }
}
