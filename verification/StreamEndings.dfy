/** How streams end: when the close handshake reaches both halves, and what the
    surviving half has received by then.  The theorems that single out one end
    hold with the ends exchanged by MirrorRun. */
module StreamEndings {
  import opened Bytes
  import opened Packets
  import opened Sockets
  import opened Streams
  import opened Multiplexer
  import opened Runs
  import opened StreamTheorems
  import opened Bystanders

  // ------------------------------------------------- the ends exchanged

  function Other(side: Side): Side {
    if side == AtA then AtB else AtA
  }

  function Exchanged(events: seq<(Side, Event)>): seq<(Side, Event)> {
    seq(|events|, i requires 0 <= i < |events| => (Other(events[i].0), events[i].1))
  }

  lemma MirrorStep(s: System, side: Side, ev: Event)
    ensures StepAt(Mirror(s), Other(side), ev) == Mirror(StepAt(s, side, ev))
  {
    FlipMembers(s.links);
    FlipMembers(Step(Mirror(s), ev).links);
    assert Mirror(Mirror(s)) == s;
    assert Mirror(Mirror(Step(Mirror(s), ev))) == Step(Mirror(s), ev);
    hide Step, Flip;
  }

  /** The same run seen from the other side. */
  lemma {:induction false} MirrorRun(events: seq<(Side, Event)>)
    ensures Run(Exchanged(events)) == Mirror(Run(events))
  {
    if events == [] {
      assert Flip({}) == {};
    } else {
      var n := |events| - 1;
      MirrorRun(events[..n]);
      assert Exchanged(events)[..n] == Exchanged(events[..n]);
      MirrorStep(Run(events[..n]), events[n].0, events[n].1);
      hide StepAt, Mirror;
    }
  }

  // ------------------------------------------- one half is always bound

  /** Of two linked halves the one that accepted the request was bound at once. */
  ghost predicate OneIsBound(s: System) {
    forall p: nat, q: nat :: (p, q) in s.links ==> Bound(s.a, p) || Bound(s.b, q)
  }

  lemma StepOneIsBound(s: System, ev: Event)
    requires Inv(s) && OneIsBound(s)
    ensures OneIsBound(Step(s, ev))
  {
    StepBound(s, ev);
    var s' := Step(s, ev);
    hide Inv, Bound;
    forall p: nat, q: nat | (p, q) in s'.links
      ensures Bound(s'.a, p) || Bound(s'.b, q)
    {
      if (p, q) !in s.links {
        NewHalfIsBound(s, ev, p, q);
      }
    }
  }

  lemma NewHalfIsBound(s: System, ev: Event, p: nat, q: nat)
    requires (p, q) in Step(s, ev).links && (p, q) !in s.links
    ensures Bound(Step(s, ev).a, p)
  {
  }

  lemma StepAtOneIsBound(s: System, side: Side, ev: Event)
    requires Inv(s) && OneIsBound(s)
    ensures OneIsBound(StepAt(s, side, ev))
  {
    if side == AtA {
      StepOneIsBound(s, ev);
    } else {
      MirrorInv(s);
      FlipMembers(s.links);
      assert OneIsBound(Mirror(s));
      StepOneIsBound(Mirror(s), ev);
      FlipMembers(Step(Mirror(s), ev).links);
    }
    hide Inv, Step, Bound, Flip;
  }

  lemma {:induction false} RunOneIsBound(events: seq<(Side, Event)>)
    ensures OneIsBound(Run(events))
  {
    if events != [] {
      var n := |events| - 1;
      RunInv(events[..n]);
      RunOneIsBound(events[..n]);
      StepAtOneIsBound(Run(events[..n]), events[n].0, events[n].1);
      hide Inv, StepAt, OneIsBound;
    }
  }

  /** The halves of a stream at the end of a run. */
  lemma HalfFacts(events: seq<(Side, Event)>, p: nat, q: nat)
    requires (p, q) in Run(events).links
    ensures var s := Run(events);
            && (Bound(s.a, p) || Bound(s.b, q))
            && (IsOpen(s.a, p) ==> Farewells(s.a, p) == 0) && Farewells(s.a, p) <= 1
            && (IsOpen(s.b, q) ==> Farewells(s.b, q) == 0) && Farewells(s.b, q) <= 1
            && (!Bound(s.a, p) ==> Inbox(s.a.out, q) == [])
            && (!Bound(s.b, q) ==> Inbox(s.b.out, p) == [])
  {
    var s := Run(events);
    RunInv(events);
    RunOneIsBound(events);
    LinkedFacts(s, p, q);
    hide Inv, Run, Attached;
  }

  /** Once the channels have drained and a half has closed, both halves are off the
      open lists if and only if a farewell was said. */
  lemma HandshakeCompletesExactly(events: seq<(Side, Event)>, p: nat, q: nat)
    requires var s := Run(events);
             (p, q) in s.links && s.a.out == [] && s.b.out == [] && !(IsOpen(s.a, p) && IsOpen(s.b, q))
    ensures var s := Run(events);
            !IsOpen(s.a, p) && !IsOpen(s.b, q) <==> Farewells(s.a, p) == 1 || Farewells(s.b, q) == 1
  {
    CloseHandshake(events, p, q);
    HalfFacts(events, p, q);
    hide Run;
  }

  // ------------------------------------------------ halves that have closed

  /** The link and the closed half after any continuation. */
  ghost predicate ShutAfter(s: System, s': System, p: nat, q: nat) {
    (p, q) in s'.links && StaysShut(s.a, s'.a, p)
  }

  /** No event of the continuation costs half `p` its backlog. */
  predicate Spared(more: seq<(Side, Event)>, p: nat) {
    forall i :: 0 <= i < |more| ==> more[i].0 == AtB || !Loses(more[i].1, p)
  }

  lemma SparedRest(more: seq<(Side, Event)>, p: nat)
    requires more != []
    ensures Spared(more, p) ==> Spared(more[..|more| - 1], p)
    ensures Spared(more, p) ==> more[|more| - 1].0 == AtB || !Loses(more[|more| - 1].1, p)
  {
    hide Loses;
  }

  lemma RunFurther(events: seq<(Side, Event)>, more: seq<(Side, Event)>)
    requires more != []
    ensures var n := |more| - 1;
            Run(events + more) == StepAt(Run(events + more[..n]), more[n].0, more[n].1)
  {
    hide Run, StepAt;
    var n := |more| - 1;
    var side, ev := more[n].0, more[n].1;
    assert more[n] == (side, ev);
    assert events + more == events + more[..n] + [(side, ev)];
    RunStep(events + more[..n], side, ev);
  }

  lemma {:induction false} ShutStays(events: seq<(Side, Event)>, more: seq<(Side, Event)>, p: nat, q: nat)
    requires (p, q) in Run(events).links && !IsOpen(Run(events).a, p)
    ensures ShutAfter(Run(events), Run(events + more), p, q)
    ensures Spared(more, p) ==> Received(Run(events + more).a, p) == Received(Run(events).a, p)
    decreases |more|
  {
    hide Run, Inv, StepAt, Received, Loses, IsOpen, Spared;
    if more == [] {
      assert events + more == events;
    } else {
      var n := |more| - 1;
      ShutStays(events, more[..n], p, q);
      RunInv(events + more[..n]);
      RunFurther(events, more);
      SparedRest(more, p);
      ShutStepAt(Run(events + more[..n]), more[n].0, more[n].1, p, q);
      StepAtLinks(Run(events + more[..n]), more[n].0, more[n].1);
    }
  }

  lemma StepAtLinks(s: System, side: Side, ev: Event)
    ensures s.links <= StepAt(s, side, ev).links
  {
    if side == AtB {
      StepLinks(Mirror(s), ev);
      FlipMembers(s.links);
      FlipMonotone(Flip(s.links), Step(Mirror(s), ev).links);
    }
  }

  // ---------------------------------------------- halves that were not bound

  /** No event of the continuation is one of the fd of half `q` of the far end. */
  predicate Idle(more: seq<(Side, Event)>, q: nat) {
    forall i :: 0 <= i < |more| && more[i].0 == AtB ==> !OwnEvent(more[i].1, q)
  }

  predicate OwnEvent(ev: Event, q: nat) {
    match ev
    case Writable(h, _) => h == q
    case Readable(h, _, _, _, _) => h == q
    case _ => false
  }

  /** A half that closed before it was bound never says anything again: nothing is
      or will be in flight to its partner, whose own farewell is the only way in
      which it leaves the open list. */
  lemma AbandonedPartner(events: seq<(Side, Event)>, more: seq<(Side, Event)>, p: nat, q: nat)
    requires (p, q) in Run(events).links && !IsOpen(Run(events).a, p) && !Bound(Run(events).a, p)
    ensures var s' := Run(events + more);
            && (p, q) in s'.links && !IsOpen(s'.a, p) && !Bound(s'.a, p) && Inbox(s'.a.out, q) == []
            && (IsOpen(s'.b, q) <==> Farewells(s'.b, q) == 0)
  {
    ShutStays(events, more, p, q);
    HalfFacts(events + more, p, q);
    hide Run;
  }

  /** It stays open in every continuation in which no event of its own fd is
      handled, whatever else happens at either end. */
  lemma {:induction false} AbandonedPartnerStaysOpen(events: seq<(Side, Event)>, more: seq<(Side, Event)>, p: nat, q: nat)
    requires (p, q) in Run(events).links && !IsOpen(Run(events).a, p) && !Bound(Run(events).a, p)
    requires IsOpen(Run(events).b, q) && Idle(more, q)
    ensures IsOpen(Run(events + more).b, q)
    decreases |more|
  {
    hide Run, Inv, StepAt, OwnEvent, Bound, IsOpen, Idle;
    if more == [] {
      assert events + more == events;
    } else {
      var n := |more| - 1;
      IdleRest(more, q);
      AbandonedPartnerStaysOpen(events, more[..n], p, q);
      AbandonedPartner(events, more[..n], p, q);
      RunInv(events + more[..n]);
      RunFurther(events, more);
      IdleStep(Run(events + more[..n]), more[n].0, more[n].1, p, q);
    }
  }

  lemma IdleRest(more: seq<(Side, Event)>, q: nat)
    requires more != [] && Idle(more, q)
    ensures Idle(more[..|more| - 1], q)
    ensures more[|more| - 1].0 == AtB ==> !OwnEvent(more[|more| - 1].1, q)
  {
    hide OwnEvent;
  }

  lemma NothingFor(channel: seq<Message>, q: nat)
    requires Inbox(channel, q) == []
    ensures channel != [] ==> !channel[0].IsFor(q)
  {
  }

  lemma IdleStep(s: System, side: Side, ev: Event, p: nat, q: nat)
    requires Inv(s) && (p, q) in s.links && IsOpen(s.b, q)
    requires Inbox(s.a.out, q) == [] && (side == AtB ==> !OwnEvent(ev, q))
    ensures IsOpen(StepAt(s, side, ev).b, q)
  {
    hide Step, Inv;
    if side == AtA {
      FarStepSpares(s, ev, q);
    } else {
      MirrorInv(s);
      FlipMembers(s.links);
      NothingFor(s.a.out, q);
      StepSpares(Mirror(s), ev, q, p);
    }
  }

  /** When does a close reach the partner?  After half `p` has closed while its
      partner was open, and once the channels have drained, the idle partner is
      closed too if and only if `p` had been bound. */
  lemma CloseReachesPartner(events: seq<(Side, Event)>, more: seq<(Side, Event)>, p: nat, q: nat)
    requires (p, q) in Run(events).links && !IsOpen(Run(events).a, p) && IsOpen(Run(events).b, q)
    requires Idle(more, q) && Run(events + more).a.out == [] && Run(events + more).b.out == []
    ensures !IsOpen(Run(events + more).b, q) <==> Bound(Run(events).a, p)
  {
    if Bound(Run(events).a, p) {
      ShutStays(events, more, p, q);
      RunKeepsBonds(events, more);
      CloseHandshake(events + more, p, q);
      HalfFacts(events + more, p, q);
      hide Run, Idle;
    } else {
      hide Run, Bound, Idle;
      AbandonedPartnerStaysOpen(events, more, p, q);
    }
  }

  /** The code does let this happen: whatever a client asks for, if it hangs up at
      once its partner is open and unbound from its side when all is quiet. */
  lemma HangUpAbandons(destination: bytes)
    ensures var none := WriteResult(0, false);
            var s := Run([(AtA, ConnectOut(destination, true)), (AtB, Deliver(true, none)), (AtA, Deliver(true, none))]);
            && (1, 1) in s.links && s.a.out == [] && s.b.out == []
            && !IsOpen(s.a, 1) && !Bound(s.a, 1) && IsOpen(s.b, 1)
  {
    var none := WriteResult(0, false);
    var e1 := ConnectOut(destination, true);
    var e2 := Deliver(true, none);
    var s1 := StepAt(Initial, AtA, e1);
    assert s1.a.out == [Open(1, destination)] && s1.b == EmptyEndpoint && s1.links == {};
    assert !IsOpen(s1.a, 1) && s1.a.nextId == 2 && s1.a.farewells == map[];
    AcceptAlone(s1, destination);
    var s2 := StepAt(s1, AtB, e2);
    IgnoreOkay(s2);
    RunStep([], AtA, e1);
    RunStep([(AtA, e1)], AtB, e2);
    RunStep([(AtA, e1), (AtB, e2)], AtA, e2);
    assert [] + [(AtA, e1)] == [(AtA, e1)];
    assert [(AtA, e1)] + [(AtB, e2)] == [(AtA, e1), (AtB, e2)];
    assert [(AtA, e1), (AtB, e2)] + [(AtA, e2)] == [(AtA, e1), (AtB, e2), (AtA, e2)];
    hide StepAt;
  }

  lemma IgnoreOkay(s: System)
    requires s.b.out == [Okay(1, 1)] && !IsOpen(s.a, 1)
    ensures StepAt(s, AtA, Deliver(true, WriteResult(0, false))) == s.(b := s.b.(out := []))
  {
    assert s.b.out[1..] == [];
  }

  lemma AcceptAlone(s: System, destination: bytes)
    requires s.a.out == [Open(1, destination)] && s.b == EmptyEndpoint && s.links == {}
    ensures var s' := StepAt(s, AtB, Deliver(true, WriteResult(0, false)));
            && (1, 1) in s'.links && s'.a == s.a.(out := []) && s'.b.out == [Okay(1, 1)]
            && IsOpen(s'.b, 1)
  {
    var m := Mirror(s);
    assert m.b.out[0] == Open(1, destination) && m.b.out[1..] == [];
    FlipMembers(m.links + {(1, 1)});
  }

  // --------------------------------------------------- delivery in full

  lemma OnlyFarewell(ms: seq<Message>, farewells: nat)
    requires EndsWithFarewell(ms, farewells) && ms != [] && ms[0].Clse?
    ensures farewells == 1 && Payload(ms) == []
  {
    FirstOfInit(ms);
    assert ms[1..] == [];
  }

  lemma FirstOfInit(ms: seq<Message>)
    ensures |ms| > 1 ==> ms[0] in ms[..|ms| - 1]
  {
    if |ms| > 1 { assert ms[..|ms| - 1][0] == ms[0]; }
  }

  /** What a half has received when the farewell of its partner reaches it. */
  lemma FarewellComesLast(s: System, p: nat, q: nat)
    requires Inv(s) && (p, q) in s.links && IsOpen(s.a, p)
    requires s.b.out != [] && s.b.out[0].Clse? && s.b.out[0].IsFor(p)
    ensures Received(s.a, p) == Log(s.b.handed, q) && !IsOpen(s.b, q)
  {
    LinkedFacts(s, p, q);
    PopView(s.a, s.b, p);
    var ms := Inbox(s.b.out, p);
    hide Inv, View;
    ViewOf(s.a, s.b, p);
    var y := View(s.a, s.b, p);
    assert y.inbox == ms && ms[0].Clse?;
    OnlyFarewell(ms, View(s.b, s.a, q).farewells);
    assert y.written + Flat(y.queue) + [] == y.written + Flat(y.queue);
    FarView0(s, q);
  }

  lemma FarView0(s: System, q: nat)
    ensures View(s.b, s.a, q).open == IsOpen(s.b, q)
    ensures View(s.b, s.a, q).handed == Log(s.b.handed, q)
    ensures View(s.b, s.a, q).farewells == Farewells(s.b, q)
  {
  }

  /** Closing keeps what has been received. */
  lemma CloseKeepsReceived(e: Endpoint, p: nat)
    requires IsOpen(e, p) && !e.sockets[p].peer.Local?
    ensures Received(Close(e, p), p) == Received(e, p) && !IsOpen(Close(e, p), p)
  {
    DropPeerTouches(e, p);
    hide DropPeer;
    assert p in Close(e, p).sockets <==> e.sockets[p].queue != [];
  }

  /** A stream that its sender closes is delivered in full: when the CLSE reaches an
      open half, everything that was handed over is written or queued, and so it
      stays on the closing list, until all is written, unless the fd fails or is
      seen at its end. */
  lemma DeliveredInFull(events: seq<(Side, Event)>, accept: bool, r: WriteResult, more: seq<(Side, Event)>,
                        p: nat, q: nat)
    requires var s := Run(events);
             && (p, q) in s.links && IsOpen(s.a, p)
             && s.b.out != [] && s.b.out[0].Clse? && s.b.out[0].IsFor(p)
    requires Spared(more, p)
    ensures var s' := Run(events + [(AtA, Deliver(accept, r))] + more);
            && !IsOpen(s'.a, p) && !IsOpen(s'.b, q)
            && Received(s'.a, p) == Log(s'.b.handed, q)
            && (p !in s'.a.sockets ==> Log(s'.a.written, p) == Log(s'.b.handed, q))
  {
    hide Run, Inv, StepAt, Received, Spared, IsOpen, StaysShut;
    var closed := events + [(AtA, Deliver(accept, r))];
    RunInv(events);
    RunStep(events, AtA, Deliver(accept, r));
    FarewellDelivered(Run(events), accept, r, p, q);
    ShutStays(closed, more, p, q);
    FarShutStays(closed, more, p, q);
    ShutHalves(Run(closed), Run(closed + more), p, q);
    AllWritten(Run(closed + more).a, p);
  }

  lemma ShutHalves(s: System, s': System, p: nat, q: nat)
    requires StaysShut(s.a, s'.a, p) && StaysShut(s.b, s'.b, q)
    ensures !IsOpen(s'.a, p) && !IsOpen(s'.b, q) && Log(s'.b.handed, q) == Log(s.b.handed, q)
  {
  }

  lemma FarewellDelivered(s: System, accept: bool, r: WriteResult, p: nat, q: nat)
    requires Inv(s) && (p, q) in s.links && IsOpen(s.a, p)
    requires s.b.out != [] && s.b.out[0].Clse? && s.b.out[0].IsFor(p)
    ensures var s1 := StepAt(s, AtA, Deliver(accept, r));
            && (p, q) in s1.links && !IsOpen(s1.a, p) && !IsOpen(s1.b, q)
            && Received(s1.a, p) == Log(s1.b.handed, q)
  {
    hide Inv, Close, Received;
    FarewellComesLast(s, p, q);
    NotLocal(s, p, q);
    CloseKeepsReceived(s.a, p);
  }

  lemma NotLocal(s: System, p: nat, q: nat)
    requires Inv(s) && (p, q) in s.links && IsOpen(s.a, p)
    ensures !s.a.sockets[p].peer.Local?
  {
    LinkedFacts(s, p, q);
  }

  lemma AllWritten(e: Endpoint, p: nat)
    ensures p !in e.sockets ==> Received(e, p) == Log(e.written, p)
  {
  }

  lemma FarShutStays(events: seq<(Side, Event)>, more: seq<(Side, Event)>, p: nat, q: nat)
    requires (p, q) in Run(events).links && !IsOpen(Run(events).b, q)
    ensures StaysShut(Run(events).b, Run(events + more).b, q)
  {
    hide Run, StaysShut, IsOpen;
    MirrorRun(events);
    MirrorRun(events + more);
    assert Exchanged(events + more) == Exchanged(events) + Exchanged(more);
    hide Exchanged;
    FlipMembers(Run(events).links);
    ShutStays(Exchanged(events), Exchanged(more), q, p);
  }
}
