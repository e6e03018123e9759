/** What the multiplexer guarantees in every run. */
module StreamTheorems {
  import opened Bytes
  import opened Packets
  import opened Sockets
  import opened Multiplexer
  import opened Runs

  function Queue(e: Endpoint, h: nat): seq<bytes> {
    if h in e.sockets then e.sockets[h].queue else []
  }

  /** End-to-end safety: what an fd was given is a prefix of what the other end
      handed over, whatever closes or fails; and while a half is open, every
      byte handed to it is written, queued or in flight. */
  lemma StreamSafety(events: seq<(Side, Event)>, p: nat, q: nat)
    requires (p, q) in Run(events).links
    ensures var s := Run(events);
            && Log(s.b.written, q) <= Log(s.a.handed, p)
            && Log(s.a.written, p) <= Log(s.b.handed, q)
            && (IsOpen(s.b, q) ==>
                  Log(s.b.written, q) + Flat(Queue(s.b, q)) + Payload(Inbox(s.a.out, q))
                  == Log(s.a.handed, p))
            && (IsOpen(s.a, p) ==>
                  Log(s.a.written, p) + Flat(Queue(s.a, p)) + Payload(Inbox(s.b.out, p))
                  == Log(s.b.handed, q))
  {
    var s := Run(events);
    RunInv(events);
    LinkedFacts(s, p, q);
    hide Inv, Run;
    PrefixOfWhole(Log(s.b.written, q), Flat(Queue(s.b, q)), Log(s.a.handed, p));
    PrefixOfWhole(Log(s.a.written, p), Flat(Queue(s.a, p)), Log(s.b.handed, q));
  }

  lemma PrefixOfWhole(a: bytes, b: bytes, c: bytes)
    ensures a + b <= c ==> a <= c
  {
    if a + b <= c { assert (a + b)[..|a|] == a; }
  }

  /** Flow control: each direction of a stream with both halves open has one
      token, which is the sender's read interest, a WRTE in flight, a packet in
      the receiver's queue, or an OKAY in flight; so that queue never exceeds
      one packet. */
  lemma FlowControl(events: seq<(Side, Event)>, p: nat, q: nat)
    requires (p, q) in Run(events).links && IsOpen(Run(events).a, p) && IsOpen(Run(events).b, q)
    ensures var s := Run(events);
            var reading := if s.a.sockets[p].wantRead then 1 else 0;
            && reading + WrteCount(Inbox(s.a.out, q)) + |Queue(s.b, q)| + OkayCount(Inbox(s.b.out, p)) == 1
            && |Queue(s.b, q)| <= 1
    ensures var s := Run(events);
            var reading := if s.b.sockets[q].wantRead then 1 else 0;
            && reading + WrteCount(Inbox(s.b.out, p)) + |Queue(s.a, p)| + OkayCount(Inbox(s.a.out, q)) == 1
            && |Queue(s.a, p)| <= 1
  {
    RunInv(events);
    LinkedFacts(Run(events), p, q);
    hide Inv, Run;
  }

  /** Both socket heaps stay coherent and no call goes through a null peer. */
  lemma HeapsStayCoherent(events: seq<(Side, Event)>)
    ensures var s := Run(events);
            Coherent(s.a) && Coherent(s.b) && !s.a.fault && !s.b.fault
  {
    RunInv(events);
    hide Coherent, Run;
  }

  /** The close handshake: a remote socket says farewell at most once, it does so
      only by closing, and once the channels have drained a farewell from either
      half means that both halves are off the open lists. */
  lemma CloseHandshake(events: seq<(Side, Event)>, p: nat, q: nat)
    requires (p, q) in Run(events).links
    ensures var s := Run(events);
            && Farewells(s.a, p) <= 1 && Farewells(s.b, q) <= 1
            && (Farewells(s.a, p) == 1 ==> !IsOpen(s.a, p))
            && (Farewells(s.b, q) == 1 ==> !IsOpen(s.b, q))
            && (s.a.out == [] && s.b.out == [] && (Farewells(s.a, p) == 1 || Farewells(s.b, q) == 1) ==>
                  !IsOpen(s.a, p) && !IsOpen(s.b, q))
  {
    RunInv(events);
    LinkedFacts(Run(events), p, q);
    hide Inv, Run;
  }

  // --------------------------------------------------------- draining

  function Weight(m: Message): nat {
    match m
    case Open(_, _) => 4
    case Wrte(_, _, _) => 2
    case _ => 1
  }

  function Weights(ms: seq<Message>): nat {
    if ms == [] then 0 else Weight(ms[0]) + Weights(ms[1..])
  }

  lemma {:induction false} WeightsAppend(ms: seq<Message>, m: Message)
    ensures Weights(ms + [m]) == Weights(ms) + Weight(m)
  {
    if ms == [] {
      assert ms + [m] == [m] && Weights([m][1..]) == 0;
    } else {
      assert (ms + [m])[1..] == ms[1..] + [m];
      WeightsAppend(ms[1..], m);
    }
  }

  function Cost(e: Endpoint): nat {
    Weights(e.out) + 2 * |e.open|
  }

  /** How many more deliveries there can be if nothing else happens. */
  function Work(s: System): nat {
    Cost(s.a) + Cost(s.b)
  }

  /** A close sends at most one packet and takes at least one socket off the list. */
  lemma CloseCost(e: Endpoint, h: nat)
    requires Coherent(e) && IsOpen(e, h)
    ensures Cost(Close(e, h)) < Cost(e)
  {
    CloseFrame(e, h);
    if e.sockets[h].peer.Local? {
      var k := e.sockets[h].peer.handle;
      assert SocketCoherent(e, h);
      var e1 := Update(e, k, e.sockets[k].(peer := NoPeer));
      assert Close(e, h).out == e.out;
    } else {
      CloseTouches(e, h);
      if e.sockets[h].peer.Remote? {
        WeightsAppend(e.out, Clse(0, e.sockets[h].peer.id));
      } else {
        assert e.out + [] == e.out;
      }
    }
  }

  lemma EnqueueCost(e: Endpoint, h: nat, data: bytes, r: WriteResult)
    requires Coherent(e) && IsOpen(e, h) && PossibleWrite(r, |data|)
    ensures Cost(Enqueue(e, h, data, r).0) <= Cost(e)
  {
    LogCoherent(e, h, data[..r.taken], Clse(0, 0));
    CloseCost(Written(e, h, data[..r.taken]), h);
    hide Coherent, Close;
  }

  lemma HandlePacketCost(e: Endpoint, m: Message, accept: bool, r: WriteResult)
    requires Coherent(e) && (m.Wrte? ==> PossibleWrite(r, |m.data|))
    ensures Cost(HandlePacket(e, m, LINK, accept, r)) < Cost(e) + Weight(m)
  {
    match m
    case Open(l, _) =>
      WeightsAppend(e.out, Okay(e.nextId, l));
      WeightsAppend(e.out, Clse(0, l));
    case Okay(_, _) =>
    case Clse(_, h) => if IsOpen(e, h) { CloseCost(e, h); hide Coherent, Close; }
    case Wrte(l, h, data) =>
      if IsOpen(e, h) {
        EnqueueCost(e, h, data, r);
        hide Coherent, Enqueue;
        WeightsAppend(Enqueue(e, h, data, r).0.out, Okay(h, l));
      }
  }

  /** Every delivery uses up some of the work left, so draining the channels
      comes to an end: no exchange of CLSE packets goes on for ever. */
  lemma DeliveryProgress(s: System, side: Side, accept: bool, r: WriteResult)
    requires Coherent(s.a) && Coherent(s.b)
    requires CanDeliver(if side == AtA then s.b.out else s.a.out, r)
    ensures Work(StepAt(s, side, Deliver(accept, r))) < Work(s)
  {
    hide Coherent, HandlePacket;
    if side == AtA {
      HandlePacketCost(s.a, s.b.out[0], accept, r);
    } else {
      HandlePacketCost(s.b, s.a.out[0], accept, r);
    }
  }

  // ---------------------------------------------------- bound halves

  /** The half is bound to its remote socket, or it was and has said farewell. */
  predicate Bound(e: Endpoint, h: nat) {
    Farewells(e, h) > 0 || (IsOpen(e, h) && e.sockets[h].peer.Remote?)
  }

  ghost predicate KeepsBound(e: Endpoint, e': Endpoint) {
    forall h :: Bound(e, h) ==> Bound(e', h)
  }

  lemma RetireBound(e: Endpoint, h: nat, j: nat)
    requires h in e.sockets
    ensures j != h ==> (Bound(Retire(e, h), j) <==> Bound(e, j))
    ensures Farewells(Retire(e, h), j) == Farewells(e, j)
  {
  }

  /** A local peer of `h` is not bound to a remote socket. */
  ghost predicate Mutual(e: Endpoint, h: nat) {
    h in e.sockets &&
    (e.sockets[h].peer.Local? && e.sockets[h].peer.handle in e.sockets ==>
       !e.sockets[e.sockets[h].peer.handle].peer.Remote?)
  }

  lemma CoherentMutual(e: Endpoint, h: nat)
    requires Coherent(e) && h in e.sockets
    ensures Mutual(e, h)
  {
    assert SocketCoherent(e, h);
  }

  lemma CloseBound(e: Endpoint, h: nat)
    requires Mutual(e, h)
    ensures KeepsBound(e, Close(e, h))
  {
    forall j | Bound(e, j)
      ensures Bound(Close(e, h), j)
    {
      var d := DropPeer(e, h);
      match e.sockets[h].peer
      case Local(k) =>
        if k in e.sockets && k != h {
          var e1 := Update(e, k, e.sockets[k].(peer := NoPeer));
          assert d == Retire(e1, k);
          RetireBound(e1, k, j);
          RetireBound(d, h, j);
        } else {
          RetireBound(d, h, j);
        }
      case _ =>
        RetireBound(d, h, j);
    }
  }

  lemma BoundTrans(e: Endpoint, e1: Endpoint, e2: Endpoint)
    requires KeepsBound(e, e1) && KeepsBound(e1, e2)
    ensures KeepsBound(e, e2)
  {
    hide Bound;
  }

  lemma EnqueueBound(e: Endpoint, h: nat, data: bytes, r: WriteResult)
    requires Mutual(e, h) && PossibleWrite(r, |data|)
    ensures KeepsBound(e, Enqueue(e, h, data, r).0)
  {
    var e1 := Written(e, h, data[..r.taken]);
    if e.sockets[h].queue == [] && r.failed {
      assert KeepsBound(e, e1) && Mutual(e1, h);
      hide Close, Bound, Mutual;
      CloseBound(e1, h);
    }
  }

  /** Changing a socket in place, but not its peer, and its history of writes. */
  lemma InPlaceBound(e: Endpoint, h: nat, t: Socket, data: bytes)
    requires h in e.sockets && t.peer == e.sockets[h].peer && t.closing == e.sockets[h].closing
    ensures var e1 := Update(Written(e, h, data), h, t);
            KeepsBound(e, e1) && h in e1.sockets && e1.sockets[h] == t && (Mutual(e, h) ==> Mutual(e1, h))
    ensures KeepsBound(e, Update(e, h, t))
  {
  }

  lemma WriteEventBound(e: Endpoint, h: nat, r: WriteResult)
    requires Mutual(e, h) && PossibleWrite(r, |Flat(e.sockets[h].queue)|)
    ensures KeepsBound(e, WriteEvent(e, h, r))
  {
    hide Close, Resume, KeepsBound, Written, AfterWriting, Flat;
    var s := e.sockets[h];
    var data := Flat(s.queue)[..r.taken];
    var s1 := s.(queue := AfterWriting(s.queue, r.taken));
    var e1 := Update(Written(e, h, data), h, s1);
    InPlaceBound(e, h, s1, data);
    var s2 := s1.(wantWrite := false);
    var e2 := Update(e1, h, s2);
    InPlaceBound(e1, h, s2, []);
    hide Update, Mutual;
    CloseBound(e1, h);
    BoundTrans(e, e1, Close(e1, h));
    BoundTrans(e, e1, e2);
    ResumeBound(e2, h);
    BoundTrans(e, e2, Resume(e2, h));
  }

  lemma ResumeBound(e: Endpoint, h: nat)
    requires h in e.sockets
    ensures KeepsBound(e, Resume(e, h))
  {
  }

  lemma ReadEventBound(e: Endpoint, h: nat, data: bytes, eof: bool, force: bool, r: WriteResult)
    requires Coherent(e) && h in e.sockets && PossibleWrite(r, |data|)
    ensures KeepsBound(e, ReadEvent(e, h, data, eof, force, r))
  {
    var passes := data != [] && e.sockets[h].peer != NoPeer;
    var (e1, ready) := if passes then PassOn(e, h, data, r) else (e, false);
    var e2 := if passes && !ready then StopReading(e1, h) else e1;
    hide Close, Bound, PassOn, StopReading, Coherent, KeepsBound;
    StopReadingBound(e1, h);
    SelfBound(e);
    if passes {
      PassOnBound(e, h, data, r);
      PassOnCoherent(e, h, data, r);
      StopReadingCoherent(e1, h);
    }
    SelfBound(e1);
    BoundTrans(e, e1, e2);
    if h in e2.sockets {
      CoherentMutual(e2, h);
      CloseBound(e2, h);
      BoundTrans(e, e2, Close(e2, h));
    }
  }

  lemma StopReadingBound(e: Endpoint, h: nat)
    ensures KeepsBound(e, StopReading(e, h))
  {
  }

  lemma SelfBound(e: Endpoint)
    ensures KeepsBound(e, e)
  {
  }

  lemma PassOnBound(e: Endpoint, h: nat, data: bytes, r: WriteResult)
    requires Coherent(e) && h in e.sockets && PossibleWrite(r, |data|)
    ensures KeepsBound(e, PassOn(e, h, data, r).0)
  {
    var e1 := Handed(e, h, data);
    assert KeepsBound(e, e1);
    if e.sockets[h].peer.Local? && e.sockets[h].peer.handle in e.sockets {
      CoherentMutual(e, e.sockets[h].peer.handle);
      EnqueueBound(e1, e.sockets[h].peer.handle, data, r);
      hide Enqueue, Bound;
    }
  }

  lemma InstallBound(e: Endpoint, peer: Peer, wantRead: bool, transport: nat)
    requires Coherent(e)
    ensures KeepsBound(e, Install(e, peer, wantRead, transport))
  {
    HandlesBelow(e);
  }

  lemma HandlePacketBound(e: Endpoint, m: Message, accept: bool, r: WriteResult)
    requires Coherent(e) && (m.Wrte? ==> PossibleWrite(r, |m.data|))
    ensures KeepsBound(e, HandlePacket(e, m, LINK, accept, r))
  {
    match m
    case Open(l, _) => InstallBound(e, Remote(l, LINK), true, 0);
    case Okay(_, _) =>
    case Clse(_, h) => if IsOpen(e, h) { CoherentMutual(e, h); CloseBound(e, h); hide Close, Bound, Coherent; }
    case Wrte(l, h, data) =>
      if IsOpen(e, h) {
        CoherentMutual(e, h);
        EnqueueBound(e, h, data, r);
        hide Enqueue, Coherent;
        var e1 := Enqueue(e, h, data, r).0;
        assert KeepsBound(e1, Send(e1, Okay(h, l)));
        hide Bound;
      }
  }

  lemma StepBound(s: System, ev: Event)
    requires Inv(s)
    ensures KeepsBound(s.a, Step(s, ev).a) && KeepsBound(s.b, Step(s, ev).b)
  {
    match ev
    case ConnectOut(destination, hangsUp) =>
      var a1 := Connect(s.a, destination, LINK);
      InstallBound(s.a, NoPeer, false, LINK);
      assert KeepsBound(s.a, a1);
      CloseBound(a1, s.a.nextId);
      hide Close;
    case BindService => HandlesBelow(s.a);
    case Writable(h, r) =>
      if CanWrite(s.a, h, r) { CoherentMutual(s.a, h); WriteEventBound(s.a, h, r); hide WriteEvent; }
    case Readable(h, data, eof, force, r) =>
      if CanRead(s.a, h, data, r) { ReadEventBound(s.a, h, data, eof, force, r); hide ReadEvent; }
    case Deliver(accept, r) =>
      if CanDeliver(s.b.out, r) { HandlePacketBound(s.a, s.b.out[0], accept, r); hide HandlePacket; }
  }

  lemma StepLinks(s: System, ev: Event)
    ensures s.links <= Step(s, ev).links
  {
  }

  lemma RunStep(events: seq<(Side, Event)>, side: Side, ev: Event)
    ensures Run(events + [(side, ev)]) == StepAt(Run(events), side, ev)
  {
    var all := events + [(side, ev)];
    assert all[..|all| - 1] == events && all[|all| - 1] == (side, ev);
    hide StepAt;
  }

  ghost predicate KeepsBonds(s: System, s': System) {
    s.links <= s'.links && KeepsBound(s.a, s'.a) && KeepsBound(s.b, s'.b)
  }

  /** Links and bonds outlive every continuation of a run. */
  lemma {:induction false} RunKeepsBonds(events: seq<(Side, Event)>, more: seq<(Side, Event)>)
    ensures KeepsBonds(Run(events), Run(events + more))
  {
    if more == [] {
      assert events + more == events;
      hide Run, Bound;
    } else {
      var n := |more| - 1;
      RunKeepsBonds(events, more[..n]);
      RunInv(events + more[..n]);
      assert events + more == events + more[..n] + [(more[n].0, more[n].1)];
      RunStep(events + more[..n], more[n].0, more[n].1);
      hide Inv, StepAt, Bound, Run;
      StepAtKeepsBonds(Run(events + more[..n]), more[n].0, more[n].1);
    }
  }

  lemma StepAtKeepsBonds(s: System, side: Side, ev: Event)
    requires Inv(s)
    ensures KeepsBonds(s, StepAt(s, side, ev))
  {
    if side == AtA {
      StepLinks(s, ev);
      StepBound(s, ev);
    } else {
      MirrorInv(s);
      StepLinks(Mirror(s), ev);
      StepBound(Mirror(s), ev);
      FlipMembers(s.links);
      FlipMembers(Step(Mirror(s), ev).links);
      FlipMonotone(Flip(s.links), Step(Mirror(s), ev).links);
    }
    hide Inv, Step, Bound, Flip;
  }

  lemma FlipMonotone(small: set<(nat, nat)>, large: set<(nat, nat)>)
    requires small <= large
    ensures Flip(small) <= Flip(large)
  {
  }

  /** Once both halves have been bound, a run in which either of them closes
      and which drains the channels leaves neither on an open list. */
  lemma BothHalvesClose(events: seq<(Side, Event)>, more: seq<(Side, Event)>, p: nat, q: nat)
    requires (p, q) in Run(events).links
    requires Bound(Run(events).a, p) && Bound(Run(events).b, q)
    ensures var s' := Run(events + more);
            s'.a.out == [] && s'.b.out == [] && (!IsOpen(s'.a, p) || !IsOpen(s'.b, q)) ==>
              !IsOpen(s'.a, p) && !IsOpen(s'.b, q)
  {
    RunKeepsBonds(events, more);
    CloseHandshake(events + more, p, q);
    hide Run;
  }
}
