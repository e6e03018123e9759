/** Pairs of local sockets of one endpoint, a client bound to a service of the host:
    what the fd of one was given is what the other read. */
module LocalPairs {
  import opened Bytes
  import opened Packets
  import opened Sockets
  import opened Multiplexer
  import opened Runs
  import opened StreamTheorems
  import opened Bystanders
  import opened HangUps

  /** The pairs that endpoint a has been asked for, by the ids of the two sockets. */
  function Pairs(events: seq<(Side, Event)>): set<(nat, nat)> {
    if events == [] then {}
    else
      var n := |events| - 1;
      Pairs(events[..n]) + NewPair(Run(events[..n]), events[n].0, events[n].1)
  }

  function NewPair(s: System, side: Side, ev: Event): set<(nat, nat)> {
    if side == AtA && ev.BindService? then {(s.a.nextId, s.a.nextId + 1)} else {}
  }

  // ------------------------------------------------------- the invariant

  ghost predicate OpenPair(e: Endpoint, h: nat, k: nat) {
    IsOpen(e, h) && IsOpen(e, k) && e.sockets[h].peer == Local(k) && e.sockets[k].peer == Local(h)
  }

  /** What `h` handed over is written or queued at `k`, and `h` reads exactly while
      nothing is queued. */
  ghost predicate Flow(e: Endpoint, h: nat, k: nat)
    requires h in e.sockets && k in e.sockets
  {
    && Log(e.handed, h) == Log(e.written, k) + Flat(e.sockets[k].queue)
    && (e.sockets[h].wantRead <==> e.sockets[k].queue == [])
  }

  /** What is written or still queued at `k` is a beginning of what `h` handed over. */
  ghost predicate Behind(e: Endpoint, h: nat, k: nat) {
    Received(e, k) <= Log(e.handed, h)
  }

  ghost predicate PairState(e: Endpoint, h: nat, k: nat) {
    && h != k && h < e.nextId && k < e.nextId
    && if IsOpen(e, h) then OpenPair(e, h, k) && Flow(e, h, k) && Flow(e, k, h)
       else !IsOpen(e, k) && Behind(e, h, k) && Behind(e, k, h)
  }

  lemma Swapped(e: Endpoint, h: nat, k: nat)
    requires PairState(e, h, k)
    ensures PairState(e, k, h)
  {
  }

  lemma RetireReceived(e: Endpoint, h: nat)
    requires IsOpen(e, h)
    ensures Received(Retire(e, h), h) == Received(e, h) && !IsOpen(Retire(e, h), h)
    ensures SameLogs(e, Retire(e, h), h)
  {
    hide Without;
  }

  lemma SparesReceived(e: Endpoint, e': Endpoint, j: nat)
    requires Spares(e, e', j)
    ensures Received(e', j) == Received(e, j) && IsOpen(e', j) == IsOpen(e, j)
  {
  }

  /** Closing one of the two closes both and loses nothing. */
  lemma ClosePair(e: Endpoint, h: nat, k: nat)
    requires OpenPair(e, h, k) && h != k
    ensures var e' := Close(e, h);
            && !IsOpen(e', h) && !IsOpen(e', k) && e'.nextId == e.nextId
            && Received(e', h) == Received(e, h) && Received(e', k) == Received(e, k)
            && Log(e'.handed, h) == Log(e.handed, h) && Log(e'.handed, k) == Log(e.handed, k)
  {
    var e1 := Update(e, k, e.sockets[k].(peer := NoPeer));
    var e2 := Retire(e1, k);
    assert DropPeer(e, h) == e2;
    RetireReceived(e1, k);
    RetireSpares(e1, k, h);
    assert e2.nextId == e.nextId && Retire(e2, h).nextId == e.nextId;
    hide Retire, Received;
    assert Received(e1, k) == Received(e, k) && Received(e1, h) == Received(e, h) by { PeerDoesNotMatter(e, k); }
    SparesReceived(e1, e2, h);
    RetireReceived(e2, h);
    RetireSpares(e2, h, k);
    SparesReceived(e2, Retire(e2, h), k);
  }

  lemma PeerDoesNotMatter(e: Endpoint, k: nat)
    requires k in e.sockets
    ensures forall j :: Received(Update(e, k, e.sockets[k].(peer := NoPeer)), j) == Received(e, j)
  {
  }

  lemma ClosedBehind(e: Endpoint, h: nat, k: nat)
    requires OpenPair(e, h, k) && h != k && h < e.nextId && k < e.nextId
    requires Behind(e, h, k) && Behind(e, k, h)
    ensures PairState(Close(e, h), h, k)
  {
    ClosePair(e, h, k);
    hide Close, Received;
  }

  lemma FlowIsBehind(e: Endpoint, h: nat, k: nat)
    requires h in e.sockets && k in e.sockets && Flow(e, h, k)
    ensures Behind(e, h, k)
  {
  }

  // ------------------------------------------------------------- writing

  /** The backlog of `h` after some of it has been written. */
  function PartlyWritten(e: Endpoint, h: nat, n: nat): Endpoint
    requires h in e.sockets && n <= |Flat(e.sockets[h].queue)|
  {
    var s := e.sockets[h];
    Update(Written(e, h, Flat(s.queue)[..n]), h, s.(queue := AfterWriting(s.queue, n)))
  }

  lemma PartlyWrittenPair(e: Endpoint, h: nat, k: nat, n: nat)
    requires PairState(e, h, k) && IsOpen(e, h) && e.sockets[h].queue != [] && n <= |Flat(e.sockets[h].queue)|
    ensures var e1 := PartlyWritten(e, h, n);
            && e1.nextId == e.nextId && OpenPair(e1, h, k) && Flow(e1, h, k) && !e1.sockets[k].wantRead
            && Log(e1.handed, k) == Log(e1.written, h) + Flat(e1.sockets[h].queue)
  {
    var s := e.sockets[h];
    AfterWritingKeepsBytes(s.queue, n);
    hide AfterWriting, Flat;
    assert Log(e.written, h) + Flat(s.queue) == (Log(e.written, h) + Flat(s.queue)[..n]) + Flat(AfterWriting(s.queue, n));
  }

  /** What is left of the backlog is kept, and the pair with it. */
  lemma BacklogKept(e1: Endpoint, h: nat, k: nat)
    requires h != k && h < e1.nextId && k < e1.nextId
    requires OpenPair(e1, h, k) && Flow(e1, h, k) && !e1.sockets[k].wantRead && e1.sockets[h].queue != []
    requires Log(e1.handed, k) == Log(e1.written, h) + Flat(e1.sockets[h].queue)
    ensures PairState(e1, h, k) && PairState(Close(e1, h), h, k)
  {
    hide Close, Flat;
    ClosedBehind(e1, h, k);
  }

  /** The backlog is gone and the peer may read again. */
  lemma BacklogGone(e1: Endpoint, h: nat, k: nat)
    requires h != k && h < e1.nextId && k < e1.nextId
    requires OpenPair(e1, h, k) && Flow(e1, h, k) && e1.sockets[h].queue == []
    requires Log(e1.handed, k) == Log(e1.written, h) + Flat(e1.sockets[h].queue)
    ensures PairState(Resume(Update(e1, h, e1.sockets[h].(wantWrite := false)), h), h, k)
  {
    hide Flat;
  }

  lemma WritablePair(e: Endpoint, h: nat, k: nat, r: WriteResult)
    requires Coherent(e) && PairState(e, h, k) && IsOpen(e, h) && CanWrite(e, h, r)
    ensures PairState(WriteEvent(e, h, r), h, k)
  {
    hide Close, Resume, AfterWriting, Flat, Coherent, PairState, OpenPair, Flow;
    PairIds(e, h, k);
    HasBacklog(e, h);
    assert h != k by { PairApart(e, h, k); }
    PartlyWrittenPair(e, h, k, r.taken);
    var e1 := PartlyWritten(e, h, r.taken);
    if e1.sockets[h].queue != [] {
      BacklogKept(e1, h, k);
    } else {
      BacklogGone(e1, h, k);
    }
  }

  lemma HasBacklog(e: Endpoint, h: nat)
    requires Coherent(e) && h in e.sockets && e.sockets[h].wantWrite
    ensures e.sockets[h].queue != []
  {
    assert SocketCoherent(e, h);
  }

  lemma PairApart(e: Endpoint, h: nat, k: nat)
    requires PairState(e, h, k)
    ensures h != k
  {
  }

  // ------------------------------------------------------------- reading

  /** What reading makes of an open pair before the socket is closed, if it is. */
  lemma PassedOnPair(e: Endpoint, h: nat, k: nat, data: bytes, r: WriteResult)
    requires Coherent(e) && PairState(e, h, k) && IsOpen(e, h) && e.sockets[h].wantRead
    requires data != [] && PossibleWrite(r, |data|)
    ensures var (e1, ready) := PassOn(e, h, data, r);
            PairState(if ready then e1 else StopReading(e1, h), h, k)
  {
    ReaderHasRoom(e, h, k);
    hide Coherent, PassOn, StopReading, PairState;
    if r.failed {
      PeerFails(e, h, k, data, r);
    } else if r.taken == |data| {
      PeerTakesAll(e, h, k, data, r);
    } else {
      PeerTakesSome(e, h, k, data, r);
    }
  }

  lemma ReaderHasRoom(e: Endpoint, h: nat, k: nat)
    requires Coherent(e) && PairState(e, h, k) && IsOpen(e, h) && e.sockets[h].wantRead
    ensures h != k && OpenPair(e, h, k) && e.sockets[k].queue == []
  {
  }

  lemma PeerTakesAll(e: Endpoint, h: nat, k: nat, data: bytes, r: WriteResult)
    requires PairState(e, h, k) && OpenPair(e, h, k) && e.sockets[k].queue == [] && e.sockets[h].wantRead && data != []
    requires PossibleWrite(r, |data|) && !r.failed && r.taken == |data|
    ensures PassOn(e, h, data, r).1 && PairState(PassOn(e, h, data, r).0, h, k)
  {
    assert Log(e.handed, h) == Log(e.written, k) + Flat([]);
    NothingFlat();
    hide Close, Flat;
    assert data[..r.taken] == data;
    assert Log(e.written, k) + data + [] == Log(e.written, k) + data;
  }

  lemma PeerTakesSome(e: Endpoint, h: nat, k: nat, data: bytes, r: WriteResult)
    requires PairState(e, h, k) && OpenPair(e, h, k) && e.sockets[k].queue == [] && e.sockets[h].wantRead && data != []
    requires PossibleWrite(r, |data|) && !r.failed && r.taken < |data|
    ensures !PassOn(e, h, data, r).1 && PairState(StopReading(PassOn(e, h, data, r).0, h), h, k)
  {
    assert Log(e.handed, h) == Log(e.written, k) + Flat([]);
    NothingFlat();
    hide Close, Flat;
    OnePacketLeft(data, r.taken);
    assert (Log(e.written, k) + data[..r.taken]) + data[r.taken..] == Log(e.written, k) + data;
  }

  lemma PeerFails(e: Endpoint, h: nat, k: nat, data: bytes, r: WriteResult)
    requires PairState(e, h, k) && OpenPair(e, h, k) && e.sockets[k].queue == [] && e.sockets[h].wantRead && data != []
    requires PossibleWrite(r, |data|) && r.failed
    ensures !PassOn(e, h, data, r).1 && PairState(StopReading(PassOn(e, h, data, r).0, h), h, k)
  {
    var e2 := Written(Handed(e, h, data), k, data[..r.taken]);
    assert PassOn(e, h, data, r) == (Close(e2, k), false);
    FailedPair(e, h, k, data, r.taken);
    hide Close, Flat, PairState, StopReading, Behind, PassOn;
    ClosedBehind(e2, k, h);
    Swapped(Close(e2, k), k, h);
    ClosedBoth(e2, k, h);
    StopReadingClosed(Close(e2, k), h, k);
  }

  lemma ClosedBoth(e: Endpoint, k: nat, h: nat)
    requires OpenPair(e, k, h) && h != k
    ensures !IsOpen(Close(e, k), h)
  {
    ClosePair(e, k, h);
    hide Close;
  }

  lemma FailedPair(e: Endpoint, h: nat, k: nat, data: bytes, n: nat)
    requires PairState(e, h, k) && OpenPair(e, h, k) && e.sockets[k].queue == [] && n <= |data|
    ensures var e2 := Written(Handed(e, h, data), k, data[..n]);
            && h != k && h < e2.nextId && k < e2.nextId
            && OpenPair(e2, k, h) && Behind(e2, h, k) && Behind(e2, k, h)
  {
    assert Log(e.handed, h) == Log(e.written, k) + Flat([]);
    NothingFlat();
    hide Flat;
    assert Log(e.written, k) + data[..n] + [] == Log(e.written, k) + data[..n] <= Log(e.written, k) + data;
  }

  lemma OnePacketLeft(data: bytes, n: nat)
    requires n <= |data|
    ensures Flat([data[n..]]) == data[n..] && data[..n] + data[n..] == data
  {
    assert [data[n..]][1..] == [] && data[n..] + [] == data[n..];
  }

  lemma StopReadingClosed(e: Endpoint, h: nat, k: nat)
    requires PairState(e, h, k) && !IsOpen(e, h)
    ensures PairState(StopReading(e, h), h, k) && !IsOpen(StopReading(e, h), h)
  {
  }

  /** Closing at the end of the file, whether the pair is still open or not. */
  lemma CloseAtEnd(e: Endpoint, h: nat, k: nat)
    requires Coherent(e) && PairState(e, h, k) && h in e.sockets
    ensures PairState(Close(e, h), h, k)
  {
    if IsOpen(e, h) {
      FlowIsBehind(e, h, k);
      FlowIsBehind(e, k, h);
      ClosedBehind(e, h, k);
    } else {
      assert SocketCoherent(e, h);
      ClosingClose(e, h);
      DestroyShut(e, h);
      assert k in Destroy(e, h).sockets <==> k in e.sockets;
      assert Received(Destroy(e, h), h) == Log(e.written, h) + [] <= Received(e, h);
      assert Received(Destroy(e, h), k) == Received(e, k);
    }
  }

  lemma ReadablePair(e: Endpoint, h: nat, k: nat, data: bytes, eof: bool, force: bool, r: WriteResult)
    requires Coherent(e) && PairState(e, h, k) && IsOpen(e, h) && CanRead(e, h, data, r)
    ensures PairState(ReadEvent(e, h, data, eof, force, r), h, k)
  {
    hide Coherent, Close, PassOn, StopReading, PairState;
    var passes := data != [] && e.sockets[h].peer != NoPeer;
    assert e.sockets[h].peer != NoPeer by { OpenHasPeer(e, h, k); }
    var (e1, ready) := if passes then PassOn(e, h, data, r) else (e, false);
    var e2 := if passes && !ready then StopReading(e1, h) else e1;
    if passes {
      PassedOnPair(e, h, k, data, r);
      PassOnCoherent(e, h, data, r);
    }
    StopReadingCoherent(e1, h);
    if h in e2.sockets {
      CloseAtEnd(e2, h, k);
    }
  }

  lemma OpenHasPeer(e: Endpoint, h: nat, k: nat)
    requires PairState(e, h, k) && IsOpen(e, h)
    ensures e.sockets[h].peer == Local(k)
  {
  }

  // --------------------------------------------------- events of the run

  /** No CLSE in flight names a socket of a pair. */
  ghost predicate NoStrays(s: System) {
    forall m :: m in s.b.out && m.Clse? ==> Lone(s.a, m.remote)
  }

  lemma SparedPair(e: Endpoint, e': Endpoint, h: nat, k: nat)
    requires PairState(e, h, k) && Spares(e, e', h) && Spares(e, e', k) && e'.nextId >= e.nextId
    ensures PairState(e', h, k)
  {
  }

  /** A packet for a socket of an open pair does not arrive. */
  lemma NoPacketFor(s: System, h: nat, k: nat)
    requires Inv(s) && NoStrays(s) && PairState(s.a, h, k) && IsOpen(s.a, h)
    ensures s.b.out != [] ==> !s.b.out[0].IsFor(h)
  {
    if s.b.out != [] && s.b.out[0].IsFor(h) {
      var m := s.b.out[0];
      HeadAccounted(s);
      hide Inv;
      assert m in s.b.out;
      match m {
        case Okay(l, _) => LinkedLone(s, h, l);
        case Wrte(l, _, _) => LinkedLone(s, h, l);
        case Clse(_, _) =>
      }
    }
  }

  /** Only `k` can be the peer of `h`. */
  lemma OnlyPeer(e: Endpoint, h: nat, k: nat, x: nat)
    requires Coherent(e) && PairState(e, h, k) && x in e.sockets && e.sockets[x].peer == Local(h)
    ensures x == k
  {
    assert SocketCoherent(e, x);
  }

  lemma OtherEvent(s: System, ev: Event, h: nat, k: nat)
    requires Coherent(s.a) && PairState(s.a, h, k) && !About(s, ev, h) && !About(s, ev, k)
    ensures Spares(s.a, Step(s, ev).a, h)
  {
    hide Coherent, Step, Spares, PairState;
    match ev {
      case Writable(x, _) => if x in s.a.sockets && s.a.sockets[x].peer == Local(h) { OnlyPeer(s.a, h, k, x); }
      case Readable(x, _, _, _, _) => if x in s.a.sockets && s.a.sockets[x].peer == Local(h) { OnlyPeer(s.a, h, k, x); }
      case Deliver(_, _) =>
        if s.b.out != [] && !s.b.out[0].Open? {
          var x := s.b.out[0].remote;
          if x in s.a.sockets && s.a.sockets[x].peer == Local(h) { OnlyPeer(s.a, h, k, x); }
        }
      case _ =>
    }
    assert h < s.a.nextId by { PairIds(s.a, h, k); }
    StepSparesApart(s, ev, h);
  }

  lemma PairIds(e: Endpoint, h: nat, k: nat)
    requires PairState(e, h, k)
    ensures h < e.nextId && k < e.nextId && IsOpen(e, h) == IsOpen(e, k)
  {
  }

  /** An event of the fd of `h` while the pair is open. */
  lemma OwnPairEvent(s: System, ev: Event, h: nat, k: nat)
    requires Inv(s) && NoStrays(s) && PairState(s.a, h, k) && IsOpen(s.a, h) && About(s, ev, h)
    ensures PairState(Step(s, ev).a, h, k)
  {
    NoPacketFor(s, h, k);
    hide Inv, Coherent, PairState, WriteEvent, ReadEvent;
    InvCoherent(s);
    match ev
    case Writable(_, r) => if CanWrite(s.a, h, r) { WritablePair(s.a, h, k, r); }
    case Readable(_, data, eof, force, r) =>
      if CanRead(s.a, h, data, r) { ReadablePair(s.a, h, k, data, eof, force, r); }
  }

  lemma ClosedPairStep(s: System, ev: Event, h: nat, k: nat)
    requires Coherent(s.a) && PairState(s.a, h, k) && !IsOpen(s.a, h)
    ensures PairState(Step(s, ev).a, h, k)
  {
    hide Coherent, Step, Received, IsOpen;
    ClosedStep(s, ev, h);
    ClosedStep(s, ev, k);
    NewlyHungUp(s, ev);
  }

  lemma PairStep(s: System, ev: Event, h: nat, k: nat)
    requires Inv(s) && NoStrays(s) && PairState(s.a, h, k)
    ensures PairState(Step(s, ev).a, h, k)
  {
    hide Inv, Coherent, Step, About, PairState, NoStrays, Spares, IsOpen;
    InvCoherent(s);
    PairIds(s.a, h, k);
    Swapped(s.a, h, k);
    NewlyHungUp(s, ev);
    if !IsOpen(s.a, h) {
      ClosedPairStep(s, ev, h, k);
    } else if About(s, ev, h) {
      OwnPairEvent(s, ev, h, k);
    } else if About(s, ev, k) {
      OwnPairEvent(s, ev, k, h);
      Swapped(Step(s, ev).a, k, h);
    } else {
      OtherEvent(s, ev, h, k);
      OtherEvent(s, ev, k, h);
      SparedPair(s.a, Step(s, ev).a, h, k);
    }
  }

  lemma NewPairState(e: Endpoint)
    requires Coherent(e)
    ensures PairState(Bind(e), e.nextId, e.nextId + 1)
  {
    NothingFlat();
  }

  // --------------------------------------------- farewells in flight

  lemma CloseStaysLone(e: Endpoint, h: nat)
    requires h in e.sockets && Lone(e, h)
    ensures Lone(Close(e, h), h)
  {
  }

  /** A socket without a local peer does not get one. */
  lemma AboutStaysLone(s: System, ev: Event, h: nat)
    requires Coherent(s.a) && Lone(s.a, h) && About(s, ev, h)
    ensures Lone(Step(s, ev).a, h)
  {
    hide Coherent, Close, AfterWriting, Flat;
    match ev
    case Writable(_, r) =>
      if CanWrite(s.a, h, r) {
        var t := s.a.sockets[h];
        var t1 := t.(queue := AfterWriting(t.queue, r.taken));
        CloseStaysLone(Update(Written(s.a, h, Flat(t.queue)[..r.taken]), h, t1), h);
      }
    case Readable(_, data, eof, force, r) =>
      if CanRead(s.a, h, data, r) {
        CloseStaysLone(s.a, h);
        CloseStaysLone(StopReading(PassOn(s.a, h, data, r).0, h), h);
      }
    case Deliver(accept, r) =>
      if CanDeliver(s.b.out, r) && IsOpen(s.a, h) {
        CloseStaysLone(s.a, h);
        if s.b.out[0].Wrte? {
          CloseStaysLone(Written(s.a, h, s.b.out[0].data[..r.taken]), h);
        }
      }
  }

  lemma StaysLone(s: System, ev: Event, h: nat)
    requires Coherent(s.a) && h < s.a.nextId && Lone(s.a, h)
    ensures Lone(Step(s, ev).a, h)
  {
    if About(s, ev, h) {
      AboutStaysLone(s, ev, h);
    } else {
      hide Step, About, Coherent;
      StepSparesLone(s, ev, h);
    }
  }

  /** Some open socket is bound to the remote one that `m` names. */
  ghost predicate BoundToTarget(e: Endpoint, m: Message)
    requires !m.Open?
  {
    exists x: nat :: IsOpen(e, x) && e.sockets[x].peer.Remote? && e.sockets[x].peer.id == m.remote
  }

  /** A CLSE that is sent goes to a socket that the sender is bound to. */
  ghost predicate ClseToPeer(e: Endpoint, e': Endpoint, m: Message) {
    m.Clse? && m in e'.out ==> m in e.out || BoundToTarget(e, m)
  }

  lemma CloseSays(e: Endpoint, h: nat, m: Message)
    requires h in e.sockets && m.Clse? && m in Close(e, h).out && m !in e.out
    ensures e.sockets[h].peer.Remote? && e.sockets[h].peer.id == m.remote
  {
    CloseCalm(e, h, m);
    match e.sockets[h].peer
    case Local(k) =>
      if k in e.sockets && k != h {
        var e1 := Update(e, k, e.sockets[k].(peer := NoPeer));
        RetireSilent(e1, k);
        RetireFrame(e1, k);
        RetireSilent(Retire(e1, k), h);
      } else {
        RetireSilent(e, h);
      }
    case _ => RetireSilent(DropPeer(e, h), h);
  }

  lemma CloseClse(e: Endpoint, e1: Endpoint, h: nat, m: Message)
    requires Coherent(e) && h in e1.sockets && e1.out == e.out
    requires e1.sockets[h].peer.Remote? ==> h in e.sockets && e.sockets[h].peer == e1.sockets[h].peer
    ensures ClseToPeer(e, Close(e1, h), m)
  {
    hide Close;
    if m.Clse? && m in Close(e1, h).out && m !in e.out {
      CloseSays(e1, h, m);
      assert SocketCoherent(e, h);
      assert IsOpen(e, h);
    }
  }

  lemma EnqueueClse(e: Endpoint, e1: Endpoint, h: nat, data: bytes, r: WriteResult, m: Message)
    requires Coherent(e) && h in e1.sockets && PossibleWrite(r, |data|) && e1.out == e.out
    requires e1.sockets == e.sockets
    ensures ClseToPeer(e, Enqueue(e1, h, data, r).0, m)
  {
    CloseClse(e, Written(e1, h, data[..r.taken]), h, m);
    hide Close, BoundToTarget, Coherent;
  }

  lemma WriteEventClse(e: Endpoint, h: nat, r: WriteResult, m: Message)
    requires Coherent(e) && h in e.sockets && PossibleWrite(r, |Flat(e.sockets[h].queue)|)
    ensures ClseToPeer(e, WriteEvent(e, h, r), m)
  {
    hide Close, AfterWriting, Flat, Coherent, BoundToTarget;
    var s := e.sockets[h];
    var s1 := s.(queue := AfterWriting(s.queue, r.taken));
    CloseClse(e, Update(Written(e, h, Flat(s.queue)[..r.taken]), h, s1), h, m);
  }

  /** The local peer of a socket is told nothing, and afterwards the socket has no
      remote peer. */
  lemma PassOnLocal(e: Endpoint, h: nat, data: bytes, r: WriteResult)
    requires Coherent(e) && h in e.sockets && e.sockets[h].peer.Local? && PossibleWrite(r, |data|)
    ensures var e1 := PassOn(e, h, data, r).0;
            e1.out == e.out && (h in e1.sockets ==> !e1.sockets[h].peer.Remote?)
  {
    var k := e.sockets[h].peer.handle;
    assert SocketCoherent(e, h);
    var e1 := Written(Handed(e, h, data), k, data[..r.taken]);
    var e2 := Update(e1, h, e1.sockets[h].(peer := NoPeer));
    RetireSilent(e2, h);
    RetireFrame(e2, h);
    RetireSilent(Retire(e2, h), k);
    RetireFrame(Retire(e2, h), k);
    assert DropPeer(e1, k) == Retire(e2, h);
    RetireHasNoRemote(e2, h);
    hide Retire, DropPeer, Coherent;
  }

  lemma RetireHasNoRemote(e: Endpoint, h: nat)
    requires h in e.sockets && !e.sockets[h].peer.Remote?
    ensures h in Retire(e, h).sockets ==> !Retire(e, h).sockets[h].peer.Remote?
  {
  }

  lemma ReadEventClse(e: Endpoint, h: nat, data: bytes, eof: bool, force: bool, r: WriteResult, m: Message)
    requires Coherent(e) && h in e.sockets && PossibleWrite(r, |data|)
    ensures ClseToPeer(e, ReadEvent(e, h, data, eof, force, r), m)
  {
    var passes := data != [] && e.sockets[h].peer != NoPeer;
    var (e1, ready) := if passes then PassOn(e, h, data, r) else (e, false);
    var e2 := if passes && !ready then StopReading(e1, h) else e1;
    hide Close, Coherent;
    if passes && e.sockets[h].peer.Local? {
      PassOnLocal(e, h, data, r);
      hide PassOn;
      if h in e2.sockets { CloseClse(e, e2, h, m); }
    } else if m.Clse? && m in ReadEvent(e, h, data, eof, force, r).out && m !in e.out {
      CloseSays(e2, h, m);
      assert IsOpen(e, h) by { RemoteIsOpen(e, h); }
    }
  }

  lemma RemoteIsOpen(e: Endpoint, h: nat)
    requires Coherent(e) && h in e.sockets && e.sockets[h].peer.Remote?
    ensures IsOpen(e, h)
  {
    assert SocketCoherent(e, h);
  }

  /** A CLSE that is sent in a step goes to a bound peer or answers a request. */
  lemma StepClse(s: System, ev: Event, m: Message)
    requires Coherent(s.a) && m.Clse? && m in Step(s, ev).a.out && m !in s.a.out
    ensures BoundToTarget(s.a, m)
         || (ev.Deliver? && s.b.out != [] && s.b.out[0].Open? && s.b.out[0].local == m.remote)
  {
    hide Coherent, Close, WriteEvent, ReadEvent, Enqueue, BoundToTarget;
    match ev
    case ConnectOut(destination, _) => Connecting(s.a, destination, m);
    case BindService =>
    case Writable(h, r) => if CanWrite(s.a, h, r) { WriteEventClse(s.a, h, r, m); }
    case Readable(h, data, eof, force, r) =>
      if CanRead(s.a, h, data, r) { ReadEventClse(s.a, h, data, eof, force, r, m); }
    case Deliver(accept, r) =>
      if CanDeliver(s.b.out, r) {
        match s.b.out[0]
        case Clse(_, h) => if IsOpen(s.a, h) { CloseClse(s.a, s.a, h, m); }
        case Wrte(_, h, data) => if IsOpen(s.a, h) { EnqueueClse(s.a, s.a, h, data, r, m); }
        case _ =>
      }
  }

  lemma NearStepStrays(s: System, ev: Event)
    requires Inv(s) && NoStrays(s)
    ensures NoStrays(Step(s, ev))
  {
    var s' := Step(s, ev);
    forall m | m in s'.b.out && m.Clse?
      ensures Lone(s'.a, m.remote)
    {
      assert m in s.b.out;
      ClseBelow(s, m);
      hide Inv, Step, Coherent, Lone;
      StaysLone(s, ev, m.remote);
    }
  }

  lemma ClseBelow(s: System, m: Message)
    requires Inv(s) && m in s.b.out && m.Clse?
    ensures m.remote < s.a.nextId && Coherent(s.a)
  {
    assert Accounted(s.b, s.a, Flip(s.links), m);
  }

  lemma FarStepStrays(s: System, ev: Event)
    requires Inv(s) && NoStrays(s)
    ensures NoStrays(StepAt(s, AtB, ev))
  {
    var s' := StepAt(s, AtB, ev);
    FarEndKept(s, ev);
    hide Inv, StepAt, Lone, Step;
    forall m | m in s'.b.out && m.Clse?
      ensures Lone(s'.a, m.remote)
    {
      assert Lone(s.a, m.remote) by { if m !in s.b.out { FarClseIsLone(s, ev, m); } }
      SameHeapLone(s.a, s'.a, m.remote);
    }
  }

  lemma SameHeapLone(e: Endpoint, e': Endpoint, j: nat)
    requires SameHeap(e, e') && Lone(e, j)
    ensures Lone(e', j)
  {
  }

  lemma FarClseIsLone(s: System, ev: Event, m: Message)
    requires Inv(s) && m in StepAt(s, AtB, ev).b.out && m !in s.b.out && m.Clse?
    ensures Lone(s.a, m.remote)
  {
    var t := Mirror(s);
    MirrorInv(s);
    InvCoherent(t);
    hide Inv, Step, Coherent;
    StepClse(t, ev, m);
    if BoundToTarget(t.a, m) {
      var x: nat :| IsOpen(t.a, x) && t.a.sockets[x].peer.Remote? && t.a.sockets[x].peer.id == m.remote;
      BoundIsLinked(s, x, m.remote);
      LinkedLone(s, m.remote, x);
    } else {
      assert s.a.out != [] && s.a.out[0].Open? && s.a.out[0] in s.a.out;
      AskingFacts(s, s.a.out[0]);
    }
  }

  lemma BoundIsLinked(s: System, x: nat, id: nat)
    requires Inv(s) && IsOpen(s.b, x) && s.b.sockets[x].peer.Remote? && s.b.sockets[x].peer.id == id
    ensures (id, x) in s.links
  {
    FlipMembers(s.links);
  }

  // ------------------------------------------------------------ every run

  ghost predicate PairsHold(s: System, pairs: set<(nat, nat)>) {
    NoStrays(s) && forall h: nat, k: nat :: (h, k) in pairs ==> PairState(s.a, h, k)
  }

  lemma NearStepPairs(s: System, ev: Event, pairs: set<(nat, nat)>)
    requires Inv(s) && PairsHold(s, pairs)
    ensures PairsHold(Step(s, ev), pairs + NewPair(s, AtA, ev))
  {
    hide Inv, Step, NoStrays, PairState, Coherent;
    NearStepStrays(s, ev);
    InvCoherent(s);
    var s', pairs' := Step(s, ev), pairs + NewPair(s, AtA, ev);
    forall h: nat, k: nat | (h, k) in pairs'
      ensures PairState(s'.a, h, k)
    {
      if (h, k) in pairs {
        PairStep(s, ev, h, k);
      } else {
        NewPairState(s.a);
        assert s'.a == Bind(s.a) by { BindStep(s, ev); }
      }
    }
  }

  lemma BindStep(s: System, ev: Event)
    requires ev.BindService?
    ensures Step(s, ev).a == Bind(s.a)
  {
  }

  lemma FarStepPairs(s: System, ev: Event, pairs: set<(nat, nat)>)
    requires Inv(s) && PairsHold(s, pairs)
    ensures PairsHold(StepAt(s, AtB, ev), pairs)
  {
    hide Inv, StepAt, NoStrays, PairState;
    FarStepStrays(s, ev);
    var s' := StepAt(s, AtB, ev);
    forall h: nat, k: nat | (h, k) in pairs
      ensures PairState(s'.a, h, k)
    {
      FarSpares(s, ev, h);
      FarSpares(s, ev, k);
      FarEndKept(s, ev);
      SparedPair(s.a, s'.a, h, k);
    }
  }

  lemma FarSpares(s: System, ev: Event, j: nat)
    ensures Spares(s.a, StepAt(s, AtB, ev).a, j)
  {
    FarStepSpares(Mirror(s), ev, j);
    hide Step;
  }

  lemma {:induction false} RunPairs(events: seq<(Side, Event)>)
    ensures PairsHold(Run(events), Pairs(events))
  {
    if events == [] {
      assert Run(events) == Initial;
    } else {
      var n := |events| - 1;
      var side, ev := events[n].0, events[n].1;
      RunInv(events[..n]);
      RunPairs(events[..n]);
      assert Run(events) == StepAt(Run(events[..n]), side, ev);
      assert Pairs(events) == Pairs(events[..n]) + NewPair(Run(events[..n]), side, ev);
      hide Run, Pairs, Inv, PairsHold, Step;
      if side == AtA {
        NearStepPairs(Run(events[..n]), ev, Pairs(events[..n]));
      } else {
        FarStepPairs(Run(events[..n]), ev, Pairs(events[..n]));
        assert Pairs(events[..n]) + {} == Pairs(events[..n]);
      }
    }
  }

  /** Data of a local pair, in both directions: what one fd was given is a beginning of
      what the other socket read and handed over; while the pair is open the rest of it
      is queued, at most for as long as the other socket does not read. */
  lemma LocalPairSafety(events: seq<(Side, Event)>, h: nat, k: nat)
    requires (h, k) in Pairs(events) || (k, h) in Pairs(events)
    ensures var e := Run(events).a;
            && Log(e.written, k) <= Log(e.handed, h)
            && (IsOpen(e, h) <==> IsOpen(e, k))
            && (IsOpen(e, k) ==>
                  && e.sockets[h].peer == Local(k)
                  && Log(e.handed, h) == Log(e.written, k) + Flat(e.sockets[k].queue)
                  && (e.sockets[h].wantRead <==> e.sockets[k].queue == []))
  {
    RunPairs(events);
    var e := Run(events).a;
    if (h, k) in Pairs(events) {
      assert PairState(e, h, k);
    } else {
      assert PairState(e, k, h);
      Swapped(e, k, h);
    }
    hide Run, Pairs;
    PrefixOfPrefix(Log(e.written, k), Backlog(e, k), Log(e.handed, h));
  }

  lemma PrefixOfPrefix(a: bytes, b: bytes, c: bytes)
    ensures a + b <= c ==> a <= c
  {
    PrefixOfWhole(a, b, c);
  }

  /** What a socket of a pair has received stays, unless its fd fails or is seen at its
      end after the pair has closed. */
  lemma ClosedPairKeeps(events: seq<(Side, Event)>, side: Side, ev: Event, h: nat, k: nat)
    requires (h, k) in Pairs(events) || (k, h) in Pairs(events)
    requires !IsOpen(Run(events).a, k) && (side == AtB || !Loses(ev, k))
    ensures var e, e' := Run(events).a, StepAt(Run(events), side, ev).a;
            Received(e', k) == Received(e, k) && Log(e'.handed, h) == Log(e.handed, h)
  {
    var s := Run(events);
    RunInv(events);
    RunPairs(events);
    InvCoherent(s);
    if (h, k) in Pairs(events) { PairIds(s.a, h, k); } else { PairIds(s.a, k, h); }
    hide Run, Pairs, Inv, PairState, Step, Coherent, Received;
    if side == AtA {
      ClosedStep(s, ev, k);
      ClosedStep(s, ev, h);
    } else {
      FarSpares(s, ev, k);
      FarSpares(s, ev, h);
      SparesReceived(s.a, StepAt(s, side, ev).a, k);
    }
  }
}
