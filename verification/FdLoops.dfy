/** The fd event loop as a value: what is registered, what is pending and what has
    been called, and what the callbacks make of it. */
module FdLoops {
  import opened Lists
  import opened FdFlags

  /** What a callback may do to the fdevent of an fd; the last is the exit handler
      of subprocesses, with the callback that it may run in turn. */
  datatype Action =
    | AddEvents(fd: nat, events: flags)
    | DelEvents(fd: nat, events: flags)
    | RemoveFd(fd: nat)
    | InstallFd(fd: nat)
    | SubprocExit(fd: nat, events: flags, subprocFd: nat, unread: bool, callback: Script)

  datatype Script = Return | Then(action: Action, rest: Script)

  /** The wanted events of a registered fdevent, those that are pending, and whether
      the end of its file is forced. */
  datatype Fde = Fde(wanted: flags, events: flags, forceEof: bool)

  /** The size of the table, the registered fdevents by their fds, the list of
      pending ones, the fds closed and the callbacks called so far. */
  datatype Loop = Loop(
    size: nat, fdes: map<nat, Fde>, pending: seq<nat>, closed: seq<nat>, called: seq<(nat, flags)>)

  /** Those fdevents are on the list that have pending events, each once. */
  ghost predicate Good(l: Loop) {
    && Distinct(l.pending)
    && (forall fd :: fd in l.pending ==> fd in l.fdes)
    && forall fd :: fd in l.fdes ==> (l.fdes[fd].events != 0 <==> fd in l.pending)
  }

  /** The list without an fd. */
  function Dropped(ps: seq<nat>, fd: nat): seq<nat> {
    if ps == [] then []
    else if ps[0] == fd then Dropped(ps[1..], fd)
    else [ps[0]] + Dropped(ps[1..], fd)
  }

  /** The members of a list that are in a set, in order. */
  function Only(ps: seq<nat>, s: set<nat>): seq<nat> {
    if ps == [] then []
    else if ps[0] in s then [ps[0]] + Only(ps[1..], s)
    else Only(ps[1..], s)
  }

  function Elements(ps: seq<nat>): set<nat> {
    set x | x in ps
  }

  // -------------------------------------------------------- what is done to it

  /** fdevent_set. */
  function WantedSet(l: Loop, fd: nat, wanted: flags): Loop
    requires fd in l.fdes
  {
    var f := l.fdes[fd];
    var events := Kept(f.wanted, f.events, wanted);
    l.(fdes := l.fdes[fd := f.(wanted := EventBits(wanted), events := events)],
       pending := if events == 0 then Dropped(l.pending, fd) else l.pending)
  }

  /** fdevent_add and fdevent_del. */
  function Added(l: Loop, fd: nat, events: flags): Loop
    requires fd in l.fdes
  {
    WantedSet(l, fd, With(EventBits(l.fdes[fd].wanted), EventBits(events)))
  }

  function Deleted(l: Loop, fd: nat, events: flags): Loop
    requires fd in l.fdes
  {
    WantedSet(l, fd, Without(EventBits(l.fdes[fd].wanted), EventBits(events)))
  }

  /** fdevent_remove. */
  function Removed(l: Loop, fd: nat): Loop
    requires fd in l.fdes
  {
    l.(fdes := l.fdes - {fd}, pending := Dropped(l.pending, fd),
       closed := l.closed + if Has(l.fdes[fd].wanted, FDE_DONT_CLOSE) then [] else [fd])
  }

  /** The size of a table that grows by doubling until it has a place for `fd`. */
  function Grown(size: nat, fd: nat): (r: nat)
    requires size > 0
    ensures r > fd && r >= size && (r == size || r <= 2 * fd)
    decreases fd - size
  {
    if fd < size then size else Grown(2 * size, fd)
  }

  /** fdevent_install, which gives up for an fd beyond the table and beyond 32000. */
  function Installed(l: Loop, fd: nat): Loop {
    if fd >= l.size && fd > 32000 then l
    else l.(fdes := l.fdes[fd := Fde(0, 0, false)], size := Grown(if l.size == 0 then 256 else l.size, fd))
  }

  /** One thing a callback does. */
  function Acted(l: Loop, a: Action): Loop
    decreases a
  {
    if a.fd !in l.fdes then (if a.InstallFd? then Installed(l, a.fd) else l)
    else
      match a
      case AddEvents(fd, events) => Added(l, fd, events)
      case DelEvents(fd, events) => Deleted(l, fd, events)
      case RemoveFd(fd) => Removed(l, fd)
      case SubprocExit(fd, events, subprocFd, unread, callback) =>
        Exited(Added(l, fd, FDE_READ), events, subprocFd, unread, callback)
      case InstallFd(_) => l
  }

  /** fdevent_subproc_event_func after it has asked for reads again. */
  function Exited(l: Loop, events: flags, subprocFd: nat, unread: bool, callback: Script): Loop
    decreases callback, 1
  {
    if !Has(events, FDE_READ) || subprocFd !in l.fdes then l
    else
      var forced := Forced(l, subprocFd);
      if unread then forced
      else if subprocFd in l.pending then Faked(forced, subprocFd)
      else Ran(forced.(called := l.called + [(subprocFd, FDE_READ)]), callback)
  }

  function Forced(l: Loop, fd: nat): Loop
    requires fd in l.fdes
  {
    l.(fdes := l.fdes[fd := l.fdes[fd].(forceEof := true)])
  }

  /** The read that is faked for an fdevent that is pending anyway. */
  function Faked(l: Loop, fd: nat): Loop
    requires fd in l.fdes
  {
    l.(fdes := l.fdes[fd := l.fdes[fd].(events := With(l.fdes[fd].events, FDE_READ))])
  }

  /** A callback is any sequence of such things. */
  function Ran(l: Loop, script: Script): Loop
    decreases script, 0
  {
    match script
    case Return => l
    case Then(a, rest) => Ran(Acted(l, a), rest)
  }

  // ------------------------------------------------------------ fdevent_loop

  /** The call for the head of the list, with its pending events. */
  function CallOf(l: Loop): (nat, flags)
    requires Good(l) && l.pending != []
  {
    (l.pending[0], l.fdes[l.pending[0]].events)
  }

  /** The head has left the list and its callback begins. */
  function Dispatched(l: Loop): Loop
    requires Good(l) && l.pending != []
  {
    var fd := l.pending[0];
    l.(fdes := l.fdes[fd := l.fdes[fd].(events := 0)], pending := l.pending[1..],
       called := l.called + [CallOf(l)])
  }

  function Nth(scripts: seq<Script>, k: nat): Script {
    if k < |scripts| then scripts[k] else Return
  }

  /** The loop after `k` rounds, the k-th of which runs the k-th callback. */
  function After(l: Loop, scripts: seq<Script>, k: nat): (r: Loop)
    requires Good(l)
    ensures Good(r)
  {
    if k == 0 then l
    else
      var before := After(l, scripts, k - 1);
      if before.pending == [] then before
      else
        DispatchedKeeps(before);
        RanKeeps(Dispatched(before), Nth(scripts, k - 1));
        Ran(Dispatched(before), Nth(scripts, k - 1))
  }

  /** These are all the calls until nothing is pending any more. */
  ghost predicate Drains(l: Loop, scripts: seq<Script>, calls: seq<(nat, flags)>)
    requires Good(l)
  {
    && After(l, scripts, |calls|).pending == []
    && forall k :: 0 <= k < |calls| ==>
         After(l, scripts, k).pending != [] && calls[k] == CallOf(After(l, scripts, k))
  }

  // ------------------------------------------------------- what they all keep

  /** The loop stays good and nothing is put on the list. */
  ghost predicate Follows(r: Loop, l: Loop) {
    Good(r) && r.pending == Only(l.pending, Elements(r.pending))
  }

  lemma {:induction false} DroppedIs(ps: seq<nat>, fd: nat)
    ensures forall x :: x in Dropped(ps, fd) <==> x in ps && x != fd
    ensures Distinct(ps) ==> Distinct(Dropped(ps, fd))
    ensures Dropped(ps, fd) == Only(ps, Elements(ps) - {fd})
  {
    if ps != [] {
      DroppedIs(ps[1..], fd);
      assert ps == [ps[0]] + ps[1..];
      assert Distinct(ps) ==> Distinct(ps[1..]) && ps[0] !in ps[1..];
      OnlyThose(ps[1..], Elements(ps) - {fd}, Elements(ps[1..]) - {fd});
    }
  }

  lemma {:induction false} OnlyThose(ps: seq<nat>, s: set<nat>, t: set<nat>)
    requires forall x :: x in ps ==> (x in s <==> x in t)
    ensures Only(ps, s) == Only(ps, t)
  {
    if ps != [] {
      OnlyThose(ps[1..], s, t);
    }
  }

  lemma {:induction false} OnlyIs(ps: seq<nat>, s: set<nat>)
    ensures forall x :: x in Only(ps, s) <==> x in ps && x in s
    ensures |Only(ps, s)| <= |ps|
    ensures (forall x :: x in ps ==> x in s) ==> Only(ps, s) == ps
  {
    if ps != [] {
      OnlyIs(ps[1..], s);
      assert ps == [ps[0]] + ps[1..];
      if ps[0] in s {
        assert Only(ps, s) == [ps[0]] + Only(ps[1..], s);
      }
    }
  }

  lemma {:induction false} OnlyTwice(ps: seq<nat>, s: set<nat>, t: set<nat>)
    requires t <= s
    ensures Only(Only(ps, s), t) == Only(ps, t)
  {
    if ps != [] {
      OnlyTwice(ps[1..], s, t);
    }
  }

  lemma FollowsItself(l: Loop)
    requires Good(l)
    ensures Follows(l, l)
  {
    OnlyIs(l.pending, Elements(l.pending));
  }

  lemma FollowsTwice(r: Loop, m: Loop, l: Loop)
    requires Follows(r, m) && Follows(m, l)
    ensures Follows(r, l)
  {
    hide Good;
    OnlyIs(m.pending, Elements(r.pending));
    assert Elements(r.pending) <= Elements(m.pending);
    OnlyTwice(l.pending, Elements(m.pending), Elements(r.pending));
  }

  lemma ActedKeeps(l: Loop, a: Action)
    requires Good(l)
    ensures Follows(Acted(l, a), l)
    decreases a
  {
    hide With, Without, EventBits, Kept, Has, Grown;
    FollowsItself(l);
    if a.fd in l.fdes {
      match a {
        case AddEvents(fd, events) =>
          SetKeeps(l, fd, With(EventBits(l.fdes[fd].wanted), EventBits(events)));
        case DelEvents(fd, events) =>
          SetKeeps(l, fd, Without(EventBits(l.fdes[fd].wanted), EventBits(events)));
        case RemoveFd(fd) =>
          DroppedFollows(l.pending, fd);
        case SubprocExit(fd, events, subprocFd, unread, callback) =>
          SetKeeps(l, fd, With(EventBits(l.fdes[fd].wanted), EventBits(FDE_READ)));
          ExitedKeeps(Added(l, fd, FDE_READ), events, subprocFd, unread, callback);
          FollowsTwice(Acted(l, a), Added(l, fd, FDE_READ), l);
        case InstallFd(_) =>
      }
    }
  }

  lemma DroppedFollows(ps: seq<nat>, fd: nat)
    ensures forall x :: x in Dropped(ps, fd) <==> x in ps && x != fd
    ensures Distinct(ps) ==> Distinct(Dropped(ps, fd))
    ensures Dropped(ps, fd) == Only(ps, Elements(Dropped(ps, fd)))
  {
    DroppedIs(ps, fd);
    OnlyThose(ps, Elements(ps) - {fd}, Elements(Dropped(ps, fd)));
  }

  lemma SetKeeps(l: Loop, fd: nat, wanted: flags)
    requires Good(l) && fd in l.fdes
    ensures Follows(WantedSet(l, fd, wanted), l)
  {
    NothingLeft(EventBits(wanted));
    hide With, Without, EventBits;
    FollowsItself(l);
    DroppedFollows(l.pending, fd);
  }

  lemma ExitedKeeps(l: Loop, events: flags, subprocFd: nat, unread: bool, callback: Script)
    requires Good(l)
    ensures Follows(Exited(l, events, subprocFd, unread, callback), l)
    decreases callback, 1
  {
    FollowsItself(l);
    if Has(events, FDE_READ) && subprocFd in l.fdes {
      MoreEvents(l.fdes[subprocFd].events, FDE_READ);
      hide With, Has;
      var forced := Forced(l, subprocFd);
      if !unread && subprocFd !in l.pending {
        RanKeeps(forced.(called := l.called + [(subprocFd, FDE_READ)]), callback);
      }
    }
  }

  /** Whatever a callback does, it puts nothing on the list, and what it leaves
      there keeps its order. */
  lemma {:induction false} RanKeeps(l: Loop, script: Script)
    requires Good(l)
    ensures Follows(Ran(l, script), l)
    decreases script, 0
  {
    hide Good;
    match script {
      case Return => FollowsItself(l);
      case Then(a, rest) =>
        ActedKeeps(l, a);
        RanKeeps(Acted(l, a), rest);
        FollowsTwice(Ran(l, script), Acted(l, a), l);
    }
  }

  lemma DispatchedKeeps(l: Loop)
    requires Good(l) && l.pending != []
    ensures Good(Dispatched(l)) && l.pending[0] !in l.pending[1..]
  {
    DistinctTail(l.pending);
  }

  // ------------------------------------------------------------ the callbacks

  /** The script works on the wanted events of an fdevent or removes it. */
  predicate Masks(script: Script, fd: nat) {
    match script
    case Return => false
    case Then(a, rest) =>
      (a.fd == fd && !a.InstallFd?) || (a.SubprocExit? && Masks(a.callback, fd)) || Masks(rest, fd)
  }

  /** The script runs the exit handler for a subprocess on the fd. */
  predicate Nudges(script: Script, fd: nat) {
    match script
    case Return => false
    case Then(a, rest) =>
      (a.SubprocExit? && (a.subprocFd == fd || Nudges(a.callback, fd))) || Nudges(rest, fd)
  }

  /** A pending fdevent is still on the list, with the events it had, or at most with
      a read besides. */
  ghost predicate Spared(r: Loop, l: Loop, fd: nat, nudged: bool) {
    && fd in l.fdes && fd in r.fdes && fd in r.pending
    && (r.fdes[fd].events == l.fdes[fd].events
        || (nudged && r.fdes[fd].events == With(l.fdes[fd].events, FDE_READ)))
  }

  lemma SparedTwice(r: Loop, m: Loop, l: Loop, fd: nat, n: bool, n': bool)
    requires Spared(r, m, fd, n) && Spared(m, l, fd, n')
    ensures Spared(r, l, fd, n || n')
  {
    hide With;
    if fd in l.fdes {
      WithTwice(l.fdes[fd].events, FDE_READ);
    }
  }

  lemma SetSpares(l: Loop, other: nat, wanted: flags, fd: nat)
    requires Good(l) && fd in l.pending && other in l.fdes && other != fd
    ensures Spared(WantedSet(l, other, wanted), l, fd, false)
  {
    hide Kept, EventBits;
    DroppedIs(l.pending, other);
  }

  lemma ActedSpares(l: Loop, a: Action, fd: nat)
    requires Good(l) && fd in l.pending && !Masks(Then(a, Return), fd)
    ensures Spared(Acted(l, a), l, fd, Nudges(Then(a, Return), fd))
    decreases a
  {
    hide With, Without, EventBits, Kept, Has, Grown, WantedSet;
    DroppedIs(l.pending, a.fd);
    if a.fd in l.fdes && !a.InstallFd? {
      match a {
        case AddEvents(f, events) =>
          SetSpares(l, f, With(EventBits(l.fdes[f].wanted), EventBits(events)), fd);
        case DelEvents(f, events) =>
          SetSpares(l, f, Without(EventBits(l.fdes[f].wanted), EventBits(events)), fd);
        case RemoveFd(f) =>
        case SubprocExit(f, events, subprocFd, unread, callback) =>
          var wanted := With(EventBits(l.fdes[f].wanted), EventBits(FDE_READ));
          SetSpares(l, f, wanted, fd);
          SetKeeps(l, f, wanted);
          ExitedSpares(Added(l, f, FDE_READ), events, subprocFd, unread, callback, fd);
          SparedTwice(Acted(l, a), Added(l, f, FDE_READ), l, fd, subprocFd == fd || Nudges(callback, fd), false);
      }
    }
  }

  lemma ExitedSpares(l: Loop, events: flags, subprocFd: nat, unread: bool, callback: Script, fd: nat)
    requires Good(l) && fd in l.pending && !Masks(callback, fd)
    ensures Spared(Exited(l, events, subprocFd, unread, callback), l, fd, subprocFd == fd || Nudges(callback, fd))
    decreases callback, 1
  {
    hide With, Has;
    if Has(events, FDE_READ) && subprocFd in l.fdes && !unread && subprocFd !in l.pending {
      var begun := Forced(l, subprocFd).(called := l.called + [(subprocFd, FDE_READ)]);
      RanSpares(begun, callback, fd);
    }
  }

  /** A callback that does nothing to a pending fdevent leaves it on the list with
      its events. */
  lemma {:induction false} RanSpares(l: Loop, script: Script, fd: nat)
    requires Good(l) && fd in l.pending && !Masks(script, fd)
    ensures Spared(Ran(l, script), l, fd, Nudges(script, fd))
    decreases script, 0
  {
    match script {
      case Return =>
      case Then(a, rest) =>
        ActedKeeps(l, a);
        ActedSpares(l, a, fd);
        RanSpares(Acted(l, a), rest, fd);
        SparedTwice(Ran(l, script), Acted(l, a), l, fd, Nudges(rest, fd), Nudges(Then(a, Return), fd));
    }
  }

  // ------------------------------------------------------------ all the calls

  /** What round `k` makes of the fdevents that are pending before it. */
  lemma RoundIs(l: Loop, scripts: seq<Script>, k: nat)
    requires Good(l) && After(l, scripts, k).pending != []
    ensures var b := After(l, scripts, k);
            && Good(Dispatched(b)) && b.pending == [b.pending[0]] + Dispatched(b).pending
            && Dispatched(b).pending == b.pending[1..]
            && (forall fd :: fd in b.fdes && fd != b.pending[0] ==>
                  fd in Dispatched(b).fdes && Dispatched(b).fdes[fd] == b.fdes[fd])
            && After(l, scripts, k + 1) == Ran(Dispatched(b), Nth(scripts, k))
            && Follows(After(l, scripts, k + 1), Dispatched(b))
  {
    var b := After(l, scripts, k);
    DispatchedKeeps(b);
    RanKeeps(Dispatched(b), Nth(scripts, k));
    hide Good, Ran, Follows;
  }

  /** In round `n` the fdevent leaves the list: it is called, with the events that
      are pending then, or the callback of that round takes it off, which is none
      that leaves it alone. */
  ghost predicate LeavesIn(l: Loop, scripts: seq<Script>, calls: seq<(nat, flags)>, fd: nat, n: nat)
    requires Good(l)
  {
    && n < |calls| && (forall k :: 0 <= k < n ==> calls[k].0 != fd)
    && fd in After(l, scripts, n).pending && fd in After(l, scripts, n).fdes
    && if calls[n].0 == fd then calls[n].1 == After(l, scripts, n).fdes[fd].events
       else fd !in After(l, scripts, n + 1).pending && Masks(Nth(scripts, n), fd)
  }

  ghost predicate Leaves(l: Loop, scripts: seq<Script>, calls: seq<(nat, flags)>, fd: nat)
    requires Good(l)
  {
    exists n :: LeavesIn(l, scripts, calls, fd, n)
  }

  /** Every fdevent that is pending when the loop starts has its call, unless an
      earlier callback has removed it or masked all its events away. */
  lemma EachHasItsCall(l: Loop, scripts: seq<Script>, calls: seq<(nat, flags)>, fd: nat)
    requires Good(l) && Drains(l, scripts, calls) && fd in l.pending
    ensures Leaves(l, scripts, calls, fd)
  {
    LeavesFrom(l, scripts, calls, fd, 0);
  }

  lemma {:induction false} LeavesFrom(l: Loop, scripts: seq<Script>, calls: seq<(nat, flags)>, fd: nat, k: nat)
    requires Good(l) && Drains(l, scripts, calls) && k <= |calls|
    requires fd in After(l, scripts, k).pending && forall j :: 0 <= j < k ==> calls[j].0 != fd
    ensures Leaves(l, scripts, calls, fd)
    decreases |calls| - k
  {
    hide Ran, Masks, Good, After, Dispatched, Follows;
    StaysOnTable(l, scripts, k, fd);
    var b := After(l, scripts, k);
    RoundIs(l, scripts, k);
    if calls[k].0 != fd && fd in After(l, scripts, k + 1).pending {
      LeavesFrom(l, scripts, calls, fd, k + 1);
    } else {
      if calls[k].0 != fd && !Masks(Nth(scripts, k), fd) {
        RanSpares(Dispatched(b), Nth(scripts, k), fd);
      }
      assert LeavesIn(l, scripts, calls, fd, k);
    }
  }

  lemma StaysOnTable(l: Loop, scripts: seq<Script>, k: nat, fd: nat)
    requires Good(l) && fd in After(l, scripts, k).pending
    ensures fd in After(l, scripts, k).fdes
  {
  }

  /** None of the callbacks up to round `n` does anything to the fdevent. */
  predicate LeftAlone(scripts: seq<Script>, fd: nat, n: nat) {
    forall k :: 0 <= k < n ==> !Masks(Nth(scripts, k), fd) && !Nudges(Nth(scripts, k), fd)
  }

  /** Then its events are those it had when the loop started. */
  lemma {:induction false} EventsStay(l: Loop, scripts: seq<Script>, calls: seq<(nat, flags)>, fd: nat, n: nat)
    requires Good(l) && Drains(l, scripts, calls) && fd in l.pending && n <= |calls|
    requires LeftAlone(scripts, fd, n) && forall k :: 0 <= k < n ==> calls[k].0 != fd
    ensures fd in After(l, scripts, n).pending && fd in After(l, scripts, n).fdes
    ensures After(l, scripts, n).fdes[fd].events == l.fdes[fd].events
  {
    hide Ran, Masks, Nudges;
    if n > 0 {
      EventsStay(l, scripts, calls, fd, n - 1);
      RoundIs(l, scripts, n - 1);
      RanSpares(Dispatched(After(l, scripts, n - 1)), Nth(scripts, n - 1), fd);
    }
  }

  /** A pending fdevent that no callback does anything to has its call, with the
      events it had when the loop started. */
  lemma UntouchedIsCalled(l: Loop, scripts: seq<Script>, calls: seq<(nat, flags)>, fd: nat)
    requires Good(l) && Drains(l, scripts, calls) && fd in l.pending
    requires LeftAlone(scripts, fd, |scripts|)
    ensures (fd, l.fdes[fd].events) in calls
  {
    hide Masks, Nudges;
    EachHasItsCall(l, scripts, calls, fd);
    var n: nat :| LeavesIn(l, scripts, calls, fd, n);
    assert LeftAlone(scripts, fd, n) by { AloneFor(scripts, fd, n); }
    EventsStay(l, scripts, calls, fd, n);
    assert !Masks(Nth(scripts, n), fd) by { AloneFor(scripts, fd, n + 1); }
    assert calls[n] == (fd, l.fdes[fd].events);
  }

  lemma AloneFor(scripts: seq<Script>, fd: nat, n: nat)
    requires LeftAlone(scripts, fd, |scripts|)
    ensures LeftAlone(scripts, fd, n) && (n > 0 ==> !Masks(Nth(scripts, n - 1), fd))
  {
    forall k | 0 <= k < n
      ensures !Masks(Nth(scripts, k), fd) && !Nudges(Nth(scripts, k), fd)
    {
      if k < |scripts| {
        assert Nth(scripts, k) == scripts[k];
      }
    }
  }

  function Fds(calls: seq<(nat, flags)>): seq<nat> {
    seq(|calls|, i requires 0 <= i < |calls| => calls[i].0)
  }

  /** The calls come in the order of the list, at most one for each fdevent on it
      and none for anything else, all of them with events. */
  lemma CallsInOrder(l: Loop, scripts: seq<Script>, calls: seq<(nat, flags)>)
    requires Good(l) && Drains(l, scripts, calls)
    ensures Fds(calls) == Only(l.pending, Elements(Fds(calls)))
    ensures Distinct(Fds(calls)) && forall k :: 0 <= k < |calls| ==> calls[k].1 != 0
  {
    OrderTo(l, scripts, calls, |calls|);
    assert calls[..|calls|] == calls && Fds(calls) + [] == Fds(calls);
    forall k | 0 <= k < |calls|
      ensures calls[k].1 != 0
    {
      assert Good(After(l, scripts, k));
    }
  }

  /** What has been called and what is still pending after `k` rounds. */
  lemma {:induction false} OrderTo(l: Loop, scripts: seq<Script>, calls: seq<(nat, flags)>, k: nat)
    requires Good(l) && Drains(l, scripts, calls) && k <= |calls|
    ensures var ps := Fds(calls[..k]) + After(l, scripts, k).pending;
            ps == Only(l.pending, Elements(ps)) && Distinct(ps)
  {
    hide Ran, Only, Elements, Good, Dispatched;
    if k == 0 {
      ItselfInOrder(l);
      assert Fds(calls[..0]) + l.pending == l.pending;
    } else {
      hide After;
      OrderTo(l, scripts, calls, k - 1);
      RoundIs(l, scripts, k - 1);
      OneMoreCalled(calls, k, After(l, scripts, k - 1), l.pending);
      InOrderNext(l.pending, Fds(calls[..k]), Dispatched(After(l, scripts, k - 1)), After(l, scripts, k));
    }
  }

  lemma ItselfInOrder(l: Loop)
    requires Good(l)
    ensures l.pending == Only(l.pending, Elements(l.pending)) && Distinct(l.pending)
  {
    FollowsItself(l);
  }

  lemma OneMoreCalled(calls: seq<(nat, flags)>, k: nat, before: Loop, ps: seq<nat>)
    requires 0 < k <= |calls| && Good(before) && before.pending != [] && calls[k - 1] == CallOf(before)
    ensures Fds(calls[..k]) + before.pending[1..] == Fds(calls[..k - 1]) + before.pending
  {
    assert Fds(calls[..k]) == Fds(calls[..k - 1]) + [before.pending[0]];
  }

  lemma InOrderNext(ps: seq<nat>, front: seq<nat>, begun: Loop, r: Loop)
    requires front + begun.pending == Only(ps, Elements(front + begun.pending)) && Distinct(front + begun.pending)
    requires Follows(r, begun)
    ensures front + r.pending == Only(ps, Elements(front + r.pending)) && Distinct(front + r.pending)
  {
    OnlyBehind(ps, front, begun.pending, r.pending);
  }

  /** Thinning out the rear of a list. */
  lemma OnlyBehind(ps: seq<nat>, front: seq<nat>, rear: seq<nat>, rest: seq<nat>)
    requires front + rear == Only(ps, Elements(front + rear)) && Distinct(front + rear)
    requires rest == Only(rear, Elements(rest)) && Distinct(rest)
    ensures front + rest == Only(ps, Elements(front + rest)) && Distinct(front + rest)
  {
    var s := Elements(front + rest);
    hide Only, Distinct;
    OnlyIs(rear, Elements(rest));
    assert s <= Elements(front + rear);
    OnlyTwice(ps, Elements(front + rear), s);
    OnlyAppend(front, rear, s);
    OnlyIs(front, s);
    Apart(front, rear);
    OnlyThose(rear, s, Elements(rest));
    DistinctBehind(front, rear, rest);
  }

  lemma DistinctBehind(front: seq<nat>, rear: seq<nat>, rest: seq<nat>)
    requires Distinct(front + rear) && Distinct(rest) && forall x :: x in rest ==> x in rear
    ensures Distinct(front + rest)
  {
    Apart(front, rear);
    assert forall i :: 0 <= i < |front| ==> front[i] == (front + rear)[i];
    forall i, j | 0 <= i < j < |front + rest|
      ensures (front + rest)[i] != (front + rest)[j]
    {
      assert j >= |front| ==> rest[j - |front|] in rear;
    }
  }

  lemma Apart(front: seq<nat>, rear: seq<nat>)
    requires Distinct(front + rear)
    ensures forall x :: x in rear ==> x !in front
  {
    forall x | x in rear
      ensures x !in front
    {
      var j :| 0 <= j < |rear| && rear[j] == x;
      assert (front + rear)[|front| + j] == x;
      assert forall i :: 0 <= i < |front| ==> front[i] == (front + rear)[i];
    }
  }

  lemma {:induction false} OnlyAppend(a: seq<nat>, b: seq<nat>, s: set<nat>)
    ensures Only(a + b, s) == Only(a, s) + Only(b, s)
  {
    if a == [] {
      assert a + b == b;
    } else {
      OnlyAppend(a[1..], b, s);
      assert (a + b)[0] == a[0] && (a + b)[1..] == a[1..] + b;
    }
  }

  /** If the callbacks do nothing, the calls are the whole list in order, each with
      the events it was pending with. */
  lemma IdleCallbacks(l: Loop, scripts: seq<Script>, calls: seq<(nat, flags)>)
    requires Good(l) && Drains(l, scripts, calls) && forall k :: 0 <= k < |scripts| ==> scripts[k] == Return
    ensures |calls| == |l.pending|
    ensures forall k :: 0 <= k < |calls| ==> calls[k] == (l.pending[k], l.fdes[l.pending[k]].events)
  {
    IdleTo(l, scripts, calls, |calls|);
    forall k | 0 <= k < |calls|
      ensures k < |l.pending| && calls[k] == (l.pending[k], l.fdes[l.pending[k]].events)
    {
      IdleTo(l, scripts, calls, k);
      assert calls[k] == CallOf(After(l, scripts, k));
    }
  }

  lemma {:induction false} IdleTo(l: Loop, scripts: seq<Script>, calls: seq<(nat, flags)>, k: nat)
    requires Good(l) && Drains(l, scripts, calls) && forall k :: 0 <= k < |scripts| ==> scripts[k] == Return
    requires k <= |calls|
    ensures k <= |l.pending| && After(l, scripts, k).pending == l.pending[k..]
    ensures forall fd :: fd in l.pending[k..] ==>
              fd in After(l, scripts, k).fdes && After(l, scripts, k).fdes[fd].events == l.fdes[fd].events
  {
    hide Good, Dispatched, Follows;
    if k == 0 {
      assert l.pending[0..] == l.pending;
      forall fd | fd in l.pending
        ensures fd in l.fdes
      {
        StaysOnTable(l, scripts, 0, fd);
      }
    } else {
      hide After;
      IdleTo(l, scripts, calls, k - 1);
      RoundIs(l, scripts, k - 1);
      assert Nth(scripts, k - 1) == Return;
      NextOfList(l, k);
    }
  }

  lemma NextOfList(l: Loop, k: nat)
    requires Good(l) && 0 < k <= |l.pending|
    ensures l.pending[k - 1..][1..] == l.pending[k..] && l.pending[k - 1..][0] == l.pending[k - 1]
    ensures l.pending[k - 1] !in l.pending[k..]
  {
  }

  // --------------------------------------------------- what the parts are for

  /** fdevent_add asks for the events that are named besides, fdevent_del for all but
      those; nothing else is asked for. */
  lemma AddedAsks(l: Loop, fd: nat, events: flags)
    requires fd in l.fdes
    ensures var was, f := l.fdes[fd].wanted, Added(l, fd, events).fdes[fd];
            && (Has(f.wanted, FDE_READ) <==> Has(was, FDE_READ) || Has(events, FDE_READ))
            && (Has(f.wanted, FDE_WRITE) <==> Has(was, FDE_WRITE) || Has(events, FDE_WRITE))
            && (Has(f.wanted, FDE_ERROR) <==> Has(was, FDE_ERROR) || Has(events, FDE_ERROR))
  {
    var was := l.fdes[fd].wanted;
    WithTells(EventBits(was), EventBits(events));
    EventBitsTell(was);
    EventBitsTell(events);
    EventBitsTell(With(EventBits(was), EventBits(events)));
    hide With, EventBits, Has, Kept;
  }

  lemma DeletedAsks(l: Loop, fd: nat, events: flags)
    requires fd in l.fdes
    ensures var was, f := l.fdes[fd].wanted, Deleted(l, fd, events).fdes[fd];
            && (Has(f.wanted, FDE_READ) <==> Has(was, FDE_READ) && !Has(events, FDE_READ))
            && (Has(f.wanted, FDE_WRITE) <==> Has(was, FDE_WRITE) && !Has(events, FDE_WRITE))
            && (Has(f.wanted, FDE_ERROR) <==> Has(was, FDE_ERROR) && !Has(events, FDE_ERROR))
  {
    var was := l.fdes[fd].wanted;
    WithoutTells(EventBits(was), EventBits(events));
    EventBitsTell(was);
    EventBitsTell(events);
    EventBitsTell(Without(EventBits(was), EventBits(events)));
    hide Without, EventBits, Has, Kept;
  }

  /** The exit of a subprocess whose output has been read reaches the fdevent of its
      fd, if there is one: either its callback is called or it is pending with a read. */
  lemma ExitIsNoticed(l: Loop, events: flags, subprocFd: nat)
    requires Good(l) && Has(events, FDE_READ) && subprocFd in l.fdes
    ensures var r := Exited(l, events, subprocFd, false, Return);
            && r.fdes[subprocFd].forceEof && r.pending == l.pending
            && if subprocFd in l.pending then Has(r.fdes[subprocFd].events, FDE_READ) && r.called == l.called
               else r.called == l.called + [(subprocFd, FDE_READ)]
  {
    WithTells(l.fdes[subprocFd].events, FDE_READ);
  }
}
