/** The clients that hang up before they are answered: theirs are exactly the halves
    of streams that close without having been bound. */
module HangUps {
  import opened Bytes
  import opened Packets
  import opened Sockets
  import opened Multiplexer
  import opened Runs
  import opened StreamTheorems
  import opened Bystanders
  import opened StreamEndings

  /** The sockets of endpoint a whose clients had shut down when they connected. */
  function HungUp(events: seq<(Side, Event)>): set<nat> {
    if events == [] then {}
    else
      var n := |events| - 1;
      HungUp(events[..n]) + NewHangUp(Run(events[..n]), events[n].0, events[n].1)
  }

  function NewHangUp(s: System, side: Side, ev: Event): set<nat> {
    if side == AtA && ev.ConnectOut? && ev.hangsUp then {s.a.nextId} else {}
  }

  /** They are gone without a farewell; and a half that is closed and was never
      bound, or a request without a socket, is one of theirs. */
  ghost predicate Accounts(s: System, hung: set<nat>) {
    && (forall p :: p in hung ==> p < s.a.nextId && p !in s.a.sockets && Farewells(s.a, p) == 0)
    && (forall p: nat, q: nat :: (p, q) in s.links && !IsOpen(s.a, p) && !Bound(s.a, p) ==> p in hung)
    && (forall m :: m in s.a.out && m.Open? && m.local !in s.a.sockets ==> m.local in hung)
  }

  // ---------------------------------------------------- events at this end

  /** A socket that is gone does not come back. */
  lemma AbsentStays(s: System, ev: Event, p: nat)
    requires Inv(s) && p !in s.a.sockets && p < s.a.nextId
    ensures p !in Step(s, ev).a.sockets && Farewells(Step(s, ev).a, p) == Farewells(s.a, p)
  {
    if About(s, ev, p) {
      hide Inv, WriteEvent, ReadEvent, Enqueue, Close;
    } else {
      hide Inv, Step, About, Coherent;
      assert Coherent(s.a) by { InvCoherent(s); }
      StepSparesLone(s, ev, p);
    }
  }

  lemma InvCoherent(s: System)
    requires Inv(s)
    ensures Coherent(s.a)
  {
  }

  /** An open half that is not bound waits for its OKAY and cannot close. */
  lemma UnboundStaysOpen(s: System, ev: Event, p: nat, q: nat)
    requires Inv(s) && (p, q) in s.links && IsOpen(s.a, p) && !Bound(s.a, p)
    ensures IsOpen(Step(s, ev).a, p)
  {
    if About(s, ev, p) {
      UnboundWaits(s, p, q);
      hide Inv, WriteEvent, ReadEvent, Enqueue, Close;
    } else {
      hide Inv, Step, About, Bound;
      StepSpares(s, ev, p, q);
    }
  }

  lemma UnboundWaits(s: System, p: nat, q: nat)
    requires Inv(s) && (p, q) in s.links && IsOpen(s.a, p) && !Bound(s.a, p)
    ensures Waiting(s.a, p) && !s.a.sockets[p].wantWrite
    ensures s.b.out != [] && s.b.out[0].IsFor(p) ==> s.b.out[0].Okay?
  {
    LinkedFacts(s, p, q);
    if s.b.out != [] && s.b.out[0].IsFor(p) { PopView(s.a, s.b, p); }
    hide Inv;
  }

  /** The socket of a request in flight stays. */
  lemma AskingStays(s: System, ev: Event, m: Message)
    requires Inv(s) && m in s.a.out && m.Open? && m.local in s.a.sockets
    ensures m.local in Step(s, ev).a.sockets
  {
    AskingFacts(s, m);
    hide Inv, WriteEvent, ReadEvent, Enqueue, Close, Coherent, Waiting;
    if !About(s, ev, m.local) {
      StepSparesLone(s, ev, m.local);
    }
  }

  lemma AskingFacts(s: System, m: Message)
    requires Inv(s) && m in s.a.out && m.Open?
    ensures 0 < m.local < s.a.nextId && Coherent(s.a)
    ensures m.local in s.a.sockets ==> Waiting(s.a, m.local) && !s.a.sockets[m.local].wantWrite && Lone(s.a, m.local)
    ensures s.b.out != [] ==> !s.b.out[0].IsFor(m.local)
    ensures Farewells(s.a, m.local) == 0
  {
    assert Accounted(s.a, s.b, s.links, m);
    NothingFor(s.b.out, m.local);
    assert m.local in s.a.sockets ==> SocketCoherent(s.a, m.local);
  }

  /** No id is given back, and `m` is not a new request. */
  ghost predicate Calm(e: Endpoint, e': Endpoint, m: Message) {
    e.nextId <= e'.nextId && (m.Open? && m in e'.out ==> m in e.out)
  }

  /** Neither ids nor packets. */
  ghost predicate Silent(e: Endpoint, e': Endpoint) {
    e'.nextId == e.nextId && e'.out == e.out
  }

  lemma RetireSilent(e: Endpoint, h: nat)
    requires h in e.sockets
    ensures Silent(e, Retire(e, h))
  {
    hide Without;
  }

  lemma CloseCalm(e: Endpoint, h: nat, m: Message)
    requires h in e.sockets
    ensures Calm(e, Close(e, h), m)
  {
    hide Retire;
    match e.sockets[h].peer
    case Local(k) =>
      if k in e.sockets && k != h {
        var e1 := Update(e, k, e.sockets[k].(peer := NoPeer));
        RetireSilent(e1, k);
        RetireFrame(e1, k);
        RetireSilent(Retire(e1, k), h);
      } else {
        RetireSilent(e, h);
      }
    case _ => RetireSilent(DropPeer(e, h), h);
  }

  lemma EnqueueCalm(e: Endpoint, h: nat, data: bytes, r: WriteResult, m: Message)
    requires h in e.sockets && PossibleWrite(r, |data|)
    ensures Calm(e, Enqueue(e, h, data, r).0, m)
  {
    CloseCalm(Written(e, h, data[..r.taken]), h, m);
    hide Close;
  }

  lemma WriteEventCalm(e: Endpoint, h: nat, r: WriteResult, m: Message)
    requires h in e.sockets && PossibleWrite(r, |Flat(e.sockets[h].queue)|)
    ensures Calm(e, WriteEvent(e, h, r), m)
  {
    hide Close, AfterWriting, Flat, Resume;
    var s := e.sockets[h];
    var s1 := s.(queue := AfterWriting(s.queue, r.taken));
    var e1 := Update(Written(e, h, Flat(s.queue)[..r.taken]), h, s1);
    CloseCalm(e1, h, m);
    ResumeCalm(Update(e1, h, s1.(wantWrite := false)), h, m);
  }

  lemma ResumeCalm(e: Endpoint, h: nat, m: Message)
    requires h in e.sockets
    ensures Calm(e, Resume(e, h), m)
  {
  }

  lemma PassOnCalm(e: Endpoint, h: nat, data: bytes, r: WriteResult, m: Message)
    requires h in e.sockets && PossibleWrite(r, |data|)
    ensures Calm(e, PassOn(e, h, data, r).0, m)
  {
    if e.sockets[h].peer.Local? && e.sockets[h].peer.handle in e.sockets {
      EnqueueCalm(Handed(e, h, data), e.sockets[h].peer.handle, data, r, m);
    }
    hide Enqueue;
  }

  lemma ReadEventCalm(e: Endpoint, h: nat, data: bytes, eof: bool, force: bool, r: WriteResult, m: Message)
    requires h in e.sockets && PossibleWrite(r, |data|)
    ensures Calm(e, ReadEvent(e, h, data, eof, force, r), m)
  {
    hide PassOn, Close;
    var passes := data != [] && e.sockets[h].peer != NoPeer;
    var (e1, ready) := if passes then PassOn(e, h, data, r) else (e, false);
    var e2 := if passes && !ready then StopReading(e1, h) else e1;
    PassOnCalm(e, h, data, r, m);
    if h in e2.sockets { CloseCalm(e2, h, m); }
  }

  lemma HandlePacketCalm(e: Endpoint, p: Message, accept: bool, r: WriteResult, m: Message)
    requires p.Wrte? ==> PossibleWrite(r, |p.data|)
    ensures Calm(e, HandlePacket(e, p, LINK, accept, r), m)
  {
    hide Close, Enqueue;
    match p
    case Clse(_, h) => if IsOpen(e, h) { CloseCalm(e, h, m); }
    case Wrte(_, h, data) => if IsOpen(e, h) { EnqueueCalm(e, h, data, r, m); }
    case _ =>
  }

  lemma StepCalm(s: System, ev: Event, m: Message)
    requires !ev.ConnectOut?
    ensures Calm(s.a, Step(s, ev).a, m)
  {
    hide Close, WriteEvent, ReadEvent, HandlePacket;
    match ev
    case BindService =>
    case Writable(h, r) => if CanWrite(s.a, h, r) { WriteEventCalm(s.a, h, r, m); }
    case Readable(h, data, eof, force, r) => if CanRead(s.a, h, data, r) { ReadEventCalm(s.a, h, data, eof, force, r, m); }
    case Deliver(accept, r) => if CanDeliver(s.b.out, r) { HandlePacketCalm(s.a, s.b.out[0], accept, r, m); }
  }

  /** What connecting adds, when the client hangs up and when it does not. */
  lemma Connecting(e: Endpoint, destination: bytes, m: Message)
    requires Coherent(e)
    ensures var e1 := Connect(e, destination, LINK);
            var e2 := Close(e1, e.nextId);
            && e1.nextId == e2.nextId == e.nextId + 1
            && e.nextId in e1.sockets && e.nextId !in e2.sockets && Farewells(e2, e.nextId) == 0
            && (m in e1.out || m in e2.out ==> m in e.out || m == Open(e.nextId, destination))
  {
  }

  lemma NewRequest(s: System, ev: Event, m: Message)
    requires Coherent(s.a) && m in Step(s, ev).a.out && m !in s.a.out && m.Open?
    ensures m.local in Step(s, ev).a.sockets || m.local in NewHangUp(s, AtA, ev)
  {
    if ev.ConnectOut? {
      Connecting(s.a, ev.destination, m);
      hide Close, Connect;
    } else {
      StepCalm(s, ev, m);
      hide Step;
    }
  }

  lemma NewlyHungUp(s: System, ev: Event)
    requires Coherent(s.a)
    ensures s.a.nextId <= Step(s, ev).a.nextId
    ensures forall p :: p in NewHangUp(s, AtA, ev) ==>
              p < Step(s, ev).a.nextId && p !in Step(s, ev).a.sockets && Farewells(Step(s, ev).a, p) == 0
  {
    if ev.ConnectOut? {
      Connecting(s.a, ev.destination, Okay(0, 0));
      hide Close, Connect;
    } else {
      StepCalm(s, ev, Okay(0, 0));
      hide Step;
    }
  }

  lemma StepAccounts(s: System, ev: Event, hung: set<nat>)
    requires Inv(s) && Accounts(s, hung)
    ensures Accounts(Step(s, ev), hung + NewHangUp(s, AtA, ev))
  {
    hide Inv, Step, Bound, Coherent, NewHangUp, IsOpen;
    var s', hung' := Step(s, ev), hung + NewHangUp(s, AtA, ev);
    InvCoherent(s);
    StepBound(s, ev);
    NewlyHungUp(s, ev);
    forall p | p in hung'
      ensures p < s'.a.nextId && p !in s'.a.sockets && Farewells(s'.a, p) == 0
    {
      if p in hung { AbsentStays(s, ev, p); }
    }
    forall p: nat, q: nat | (p, q) in s'.links && !IsOpen(s'.a, p) && !Bound(s'.a, p)
      ensures p in hung'
    {
      if (p, q) in s.links {
        assert !Bound(s.a, p);
        if IsOpen(s.a, p) { UnboundStaysOpen(s, ev, p, q); }
      } else {
        NewHalfIsBound(s, ev, p, q);
      }
    }
    forall m | m in s'.a.out && m.Open? && m.local !in s'.a.sockets
      ensures m.local in hung'
    {
      if m !in s.a.out {
        NewRequest(s, ev, m);
      } else if m.local in s.a.sockets {
        AskingStays(s, ev, m);
      }
    }
  }

  // ------------------------------------------------ events at the other end

  lemma FarStepAccounts(s: System, ev: Event, hung: set<nat>)
    requires Inv(s) && Accounts(s, hung)
    ensures Accounts(StepAt(s, AtB, ev), hung)
  {
    var s' := StepAt(s, AtB, ev);
    FarEndKept(s, ev);
    hide Inv, StepAt, Bound;
    forall p: nat, q: nat | (p, q) in s'.links && !IsOpen(s'.a, p) && !Bound(s'.a, p)
      ensures p in hung
    {
      assert SameHeap(s.a, s'.a);
      SameBound(s.a, s'.a, p);
      if (p, q) !in s.links {
        LinkedByRequest(s, ev, p, q);
      }
    }
  }

  ghost predicate SameHeap(e: Endpoint, e': Endpoint) {
    && e'.sockets == e.sockets && e'.nextId == e.nextId && e'.farewells == e.farewells
    && forall m :: m in e'.out ==> m in e.out
  }

  lemma FarEndKept(s: System, ev: Event)
    ensures SameHeap(s.a, StepAt(s, AtB, ev).a)
  {
  }

  lemma SameBound(e: Endpoint, e': Endpoint, p: nat)
    requires SameHeap(e, e')
    ensures Bound(e', p) == Bound(e, p) && IsOpen(e', p) == IsOpen(e, p)
  {
  }

  /** A new link is one for a request that was in flight. */
  lemma LinkedByRequest(s: System, ev: Event, p: nat, q: nat)
    requires Inv(s) && (p, q) in StepAt(s, AtB, ev).links && (p, q) !in s.links
    ensures exists m :: m in s.a.out && m.Open? && m.local == p && (IsOpen(s.a, p) || p !in s.a.sockets)
  {
    FlipMembers(s.links);
    FlipMembers(Step(Mirror(s), ev).links);
    hide Inv, Flip;
    assert (q, p) in Step(Mirror(s), ev).links && (q, p) !in Mirror(s).links;
    assert ev.Deliver? && s.a.out != [] && s.a.out[0].Open? && s.a.out[0].local == p;
    AskingFacts(s, s.a.out[0]);
  }

  lemma {:induction false} RunAccounts(events: seq<(Side, Event)>)
    ensures Accounts(Run(events), HungUp(events))
  {
    if events == [] {
      assert Run(events) == Initial;
    } else {
      var n := |events| - 1;
      var side, ev := events[n].0, events[n].1;
      RunInv(events[..n]);
      RunAccounts(events[..n]);
      assert Run(events) == StepAt(Run(events[..n]), side, ev);
      assert HungUp(events) == HungUp(events[..n]) + NewHangUp(Run(events[..n]), side, ev);
      hide Run, HungUp, Inv, Accounts, Step;
      if side == AtA {
        StepAccounts(Run(events[..n]), ev, HungUp(events[..n]));
      } else {
        FarStepAccounts(Run(events[..n]), ev, HungUp(events[..n]));
        assert HungUp(events[..n]) + {} == HungUp(events[..n]);
      }
    }
  }

  /** A half that is closed was never bound if and only if its client had hung up
      when it connected. */
  lemma UnboundExactly(events: seq<(Side, Event)>, p: nat, q: nat)
    requires (p, q) in Run(events).links && !IsOpen(Run(events).a, p)
    ensures !Bound(Run(events).a, p) <==> p in HungUp(events)
  {
    RunAccounts(events);
    hide Run, HungUp;
  }

  /** When a close reaches the partner: after half `p` has closed while its partner
      was open, and once the channels have drained, the idle partner is closed too
      unless the client of `p` had hung up when it connected, and only then. */
  lemma CloseReachesUnlessHungUp(events: seq<(Side, Event)>, more: seq<(Side, Event)>, p: nat, q: nat)
    requires (p, q) in Run(events).links && !IsOpen(Run(events).a, p) && IsOpen(Run(events).b, q)
    requires Idle(more, q) && Run(events + more).a.out == [] && Run(events + more).b.out == []
    ensures !IsOpen(Run(events + more).b, q) <==> p !in HungUp(events)
  {
    UnboundExactly(events, p, q);
    CloseReachesPartner(events, more, p, q);
    hide Run, HungUp;
  }
}
