/** Every run of the two endpoints keeps the invariant, and what follows. */
module Runs {
  import opened Bytes
  import opened Packets
  import opened Sockets
  import opened Streams
  import opened Multiplexer
  import opened QuietSteps

  // ----------------------------------------------------- new sockets

  /** Nothing in flight names a socket that does not exist yet. */
  lemma FreshId(s: System, n: nat)
    requires Inv(s) && n >= s.a.nextId
    ensures Inbox(s.b.out, n) == [] && Requests(s.a.out, n) == 0
    ensures !Linked(s.links, n) && n !in s.a.sockets
    ensures Log(s.a.written, n) == [] && Log(s.a.handed, n) == [] && Farewells(s.a, n) == 0
  {
    FlipMembers(s.links);
    HandlesBelow(s.a);
    RequestsPositive(s.a.out, n);
    forall m | m in s.b.out
      ensures !m.IsFor(n)
    {
      assert Accounted(s.b, s.a, Flip(s.links), m);
    }
    InboxEmpty(s.b.out, n);
  }

  /** Endpoint e' has the sockets of e and some new ones, and has sent `sent`. */
  ghost predicate Grows(e: Endpoint, e': Endpoint, sent: seq<Message>) {
    && e'.nextId >= e.nextId && e'.out == e.out + sent && e'.fault == e.fault
    && e'.written == e.written && e'.handed == e.handed && e'.farewells == e.farewells
    && (forall j :: j < e.nextId ==> (j in e'.sockets <==> j in e.sockets))
    && (forall j :: j < e.nextId && j in e.sockets ==> e'.sockets[j] == e.sockets[j])
  }

  lemma InstallGrows(e: Endpoint, peer: Peer, wantRead: bool, transport: nat, m: Message)
    ensures Grows(e, Send(Install(e, peer, wantRead, transport), m), [m])
  {
  }

  /** Streams do not see new sockets, nor packets for sockets without a stream. */
  lemma GrowStreaming(s: System, a': Endpoint, b': Endpoint, sent: seq<Message>)
    requires OneToOne(s.a, s.b, s.links) && Streaming(s.a, s.b, s.links)
    requires Grows(s.a, a', sent) && |sent| <= 1
    requires sent != [] && !sent[0].Open? ==> forall p: nat :: (p, sent[0].remote) !in s.links
    requires b' == s.b || (s.b.out != [] && s.b.out[0].Open? && b' == Pop(s.b))
    ensures forall p: nat, q: nat :: (p, q) in s.links ==> Stream(p, View(a', b', p), q, View(b', a', q))
  {
    forall p: nat, q: nat | (p, q) in s.links
      ensures Stream(p, View(a', b', p), q, View(b', a', q))
    {
      assert p < s.a.nextId;
      assert Stream(p, View(s.a, s.b, p), q, View(s.b, s.a, q));
      hide Stream, View, OneToOne, Streaming;
      assert sent != [] && !sent[0].Open? ==> sent[0].remote != q;
      GrowViews(s, a', b', sent, p, q);
    }
  }

  lemma GrowViews(s: System, a': Endpoint, b': Endpoint, sent: seq<Message>, p: nat, q: nat)
    requires Grows(s.a, a', sent) && |sent| <= 1 && p < s.a.nextId
    requires sent != [] ==> !sent[0].IsFor(q)
    requires b' == s.b || (s.b.out != [] && s.b.out[0].Open? && b' == Pop(s.b))
    ensures View(a', b', p) == View(s.a, s.b, p) && View(b', a', q) == View(s.b, s.a, q)
  {
    hide View;
    if sent == [] {
      assert s.a.out + sent == s.a.out;
    } else {
      assert sent == [sent[0]];
      InboxAppend(s.a.out, sent[0], q);
    }
    SameView(s.a, s.b, a', b', p);
    SameView(s.b, s.a, b', a', q);
  }

  lemma ConnectTrafficOut(s: System, destination: bytes)
    requires Inv(s)
    ensures var a' := Connect(s.a, destination, LINK);
            Traffic(a', s.b, s.links)
  {
    var n := s.a.nextId;
    var m := Open(n, destination);
    var a' := Connect(s.a, destination, LINK);
    FreshId(s, n);
    assert Traffic(s.a, s.b, s.links);
    hide Coherent, Streaming, OneToOne;
    forall m' | m' in a'.out
      ensures Accounted(a', s.b, s.links, m')
    {
      if m'.Open? {
        RequestsAppend(s.a.out, m, m'.local);
      }
      assert m' in s.a.out ==> Accounted(s.a, s.b, s.links, m');
    }
  }

  lemma SentTrafficIn(s: System, a': Endpoint, sent: seq<Message>)
    requires Traffic(s.b, s.a, Flip(s.links))
    requires Grows(s.a, a', sent)
    requires sent == [] || (|sent| == 1 && sent[0].Open?)
    ensures Traffic(s.b, a', Flip(s.links))
  {
    hide Flip;
    forall m | m in s.b.out
      ensures Accounted(s.b, a', Flip(s.links), m)
    {
      assert Accounted(s.b, s.a, Flip(s.links), m);
      if m.Open? {
        if sent == [] {
          assert s.a.out + sent == s.a.out;
        } else {
          assert sent == [sent[0]];
          InboxAppend(s.a.out, sent[0], m.local);
        }
      }
    }
  }

  lemma ConnectInv(s: System, destination: bytes)
    requires Inv(s)
    ensures Inv(s.(a := Connect(s.a, destination, LINK)))
  {
    var m := Open(s.a.nextId, destination);
    var a' := Connect(s.a, destination, LINK);
    ConnectTrafficOut(s, destination);
    InstallGrows(s.a, NoPeer, false, LINK, m);
    hide Coherent, Traffic, Stream;
    SentTrafficIn(s, a', [m]);
    GrowStreaming(s, a', s.b, [m]);
    ConnectCoherent(s.a, destination, LINK);
  }

  lemma BindTrafficOut(s: System)
    requires Traffic(s.a, s.b, s.links)
    ensures Traffic(Bind(s.a), s.b, s.links)
  {
    var a' := Bind(s.a);
    assert a'.out == s.a.out;
    forall m | m in a'.out
      ensures Accounted(a', s.b, s.links, m)
    {
      assert Accounted(s.a, s.b, s.links, m);
    }
    hide Accounted;
  }

  lemma BindInv(s: System)
    requires Inv(s)
    ensures Inv(s.(a := Bind(s.a)))
  {
    var a' := Bind(s.a);
    assert a'.out == s.a.out + [];
    BindTrafficOut(s);
    hide Coherent, Traffic, Stream;
    SentTrafficIn(s, a', []);
    GrowStreaming(s, a', s.b, []);
    BindCoherent(s.a);
  }

  // ------------------------------------------------------ a request to open

  /** What the invariant says of the request at the head of the channel. */
  lemma RequestFacts(s: System, l: nat)
    requires Inv(s) && s.b.out != [] && s.b.out[0].Open? && s.b.out[0].local == l
    ensures Asking(s.b, s.a, Flip(s.links), l)
    ensures forall p: nat :: (p, l) !in s.links
    ensures Requests(s.b.out[1..], l) == 0
    ensures forall m :: m in s.b.out[1..] ==> m in s.b.out && !(m.Open? && m.local == l)
  {
    FlipMembers(s.links);
    assert Accounted(s.b, s.a, Flip(s.links), s.b.out[0]);
    hide Coherent, Streaming;
    RequestsPositive(s.b.out[1..], l);
    forall p: nat
      ensures (p, l) !in s.links
    {
      assert (l, p) in Flip(s.links) ==> Linked(Flip(s.links), l);
    }
  }

  function Accepted(s: System, l: nat): System
    requires s.b.out != []
  {
    var n := s.a.nextId;
    System(Send(Install(s.a, Remote(l, LINK), true, 0), Okay(n, l)), Pop(s.b), s.links + {(n, l)})
  }

  lemma PopRequests(s: System, l: nat)
    requires s.b.out != [] && s.b.out[0].Open? && s.b.out[0].local == l
    ensures forall id :: Inbox(Pop(s.b).out, id) == Inbox(s.b.out, id)
    ensures forall id :: id != l ==> Requests(Pop(s.b).out, id) == Requests(s.b.out, id)
  {
  }

  lemma AcceptedAsking(s: System, l: nat, other: nat)
    requires s.b.out != [] && s.b.out[0].Open? && s.b.out[0].local == l
    requires Asking(s.a, s.b, s.links, other)
    ensures var s' := Accepted(s, l);
            Asking(s'.a, s'.b, s'.links, other)
  {
    var n := s.a.nextId;
    PopRequests(s, l);
    RequestsAppend(s.a.out, Okay(n, l), other);
  }

  lemma AcceptedTrafficOut(s: System, l: nat)
    requires Inv(s) && s.b.out != [] && s.b.out[0].Open? && s.b.out[0].local == l
    ensures var s' := Accepted(s, l);
            Traffic(s'.a, s'.b, s'.links)
  {
    var n := s.a.nextId;
    var s' := Accepted(s, l);
    assert Traffic(s.a, s.b, s.links);
    hide Inv;
    assert (n, l) in s'.links;
    forall m | m in s'.a.out
      ensures Accounted(s'.a, s'.b, s'.links, m)
    {
      if m in s.a.out {
        assert Accounted(s.a, s.b, s.links, m);
        if m.Open? { AcceptedAsking(s, l, m.local); }
        hide Asking;
      }
    }
    hide Asking;
    assert forall h :: Linked(s.links, h) ==> Linked(s'.links, h);
  }

  lemma AcceptedAskingIn(s: System, l: nat, other: nat)
    requires s.b.out != [] && s.b.out[0].Open? && s.b.out[0].local == l && other != l
    requires Asking(s.b, s.a, Flip(s.links), other)
    ensures var s' := Accepted(s, l);
            Asking(s'.b, s'.a, Flip(s'.links), other)
  {
    var n := s.a.nextId;
    FlipMembers(s.links);
    FlipMembers(Accepted(s, l).links);
    hide Flip;
    PopRequests(s, l);
    InboxAppend(s.a.out, Okay(n, l), other);
  }

  lemma AcceptedTrafficIn(s: System, l: nat)
    requires Inv(s) && s.b.out != [] && s.b.out[0].Open? && s.b.out[0].local == l
    ensures var s' := Accepted(s, l);
            Traffic(s'.b, s'.a, Flip(s'.links))
  {
    var s' := Accepted(s, l);
    RequestFacts(s, l);
    FlipMembers(s.links);
    FlipMembers(s'.links);
    assert Traffic(s.b, s.a, Flip(s.links));
    hide Inv, Flip;
    forall m | m in s'.b.out
      ensures Accounted(s'.b, s'.a, Flip(s'.links), m)
    {
      assert Accounted(s.b, s.a, Flip(s.links), m);
      if m.Open? { AcceptedAskingIn(s, l, m.local); }
      hide Asking;
    }
    hide Asking, Accounted;
    assert forall h :: Linked(Flip(s.links), h) ==> Linked(Flip(s'.links), h);
  }

  /** A new stream: the acceptor may send at once, and its OKAY is the token of
      the other direction. */
  lemma NewHalves(n: nat, l: nat, y: Half)
    requires y.open ==> y.peer == NoPeer && !y.wantRead
    requires y.queue == [] && y.written == [] && y.handed == [] && y.farewells == 0
    requires y.inbox == [Okay(n, l)]
    ensures Stream(n, Half(true, Remote(l, LINK), [], true, [], [], 0, []), l, y)
  {
    assert y.inbox[1..] == [];
  }

  lemma NewStream(s: System, l: nat)
    requires Inv(s) && s.b.out != [] && s.b.out[0].Open? && s.b.out[0].local == l
    ensures var s' := Accepted(s, l);
            var n := s.a.nextId;
            Stream(n, View(s'.a, s'.b, n), l, View(s'.b, s'.a, l))
  {
    var n := s.a.nextId;
    var s' := Accepted(s, l);
    FreshId(s, n);
    RequestFacts(s, l);
    hide Inv, Stream;
    InboxAppend(s.a.out, Okay(n, l), l);
    NewHalves(n, l, View(s'.b, s'.a, l));
  }

  lemma AcceptedOneToOne(s: System, l: nat)
    requires Inv(s) && s.b.out != [] && s.b.out[0].Open? && s.b.out[0].local == l
    ensures OneToOne(Accepted(s, l).a, Accepted(s, l).b, Accepted(s, l).links)
  {
    RequestFacts(s, l);
    hide Coherent, Traffic, Streaming;
  }

  lemma AcceptedStreaming(s: System, l: nat)
    requires Inv(s) && s.b.out != [] && s.b.out[0].Open? && s.b.out[0].local == l
    ensures Streaming(Accepted(s, l).a, Accepted(s, l).b, Accepted(s, l).links)
  {
    var n := s.a.nextId;
    var s' := Accepted(s, l);
    RequestFacts(s, l);
    NewStream(s, l);
    InstallGrows(s.a, Remote(l, LINK), true, 0, Okay(n, l));
    hide Stream, Traffic, Coherent;
    GrowStreaming(s, s'.a, s'.b, [Okay(n, l)]);
    hide OneToOne;
  }

  lemma AcceptedInv(s: System, l: nat)
    requires Inv(s) && s.b.out != [] && s.b.out[0].Open? && s.b.out[0].local == l
    ensures Inv(Accepted(s, l))
  {
    AcceptedTrafficOut(s, l);
    AcceptedTrafficIn(s, l);
    AcceptedStreaming(s, l);
    AcceptedOneToOne(s, l);
    hide Traffic, Streaming, OneToOne;
    var e1 := Install(s.a, Remote(l, LINK), true, 0);
    InstallCoherent(s.a, Remote(l, LINK), true, 0);
    SameHeapCoherent(e1, Send(e1, Okay(s.a.nextId, l)));
    SameHeapCoherent(s.b, Pop(s.b));
    hide Coherent;
  }

  function Refused(s: System, l: nat): System
    requires s.b.out != []
  {
    System(Send(s.a, Clse(0, l)), Pop(s.b), s.links)
  }

  lemma RefusedTrafficOut(s: System, l: nat)
    requires Inv(s) && s.b.out != [] && s.b.out[0].Open? && s.b.out[0].local == l
    ensures Traffic(Refused(s, l).a, Refused(s, l).b, s.links)
  {
    var s' := Refused(s, l);
    RequestFacts(s, l);
    assert Traffic(s.a, s.b, s.links);
    hide Inv, Flip;
    PopRequests(s, l);
    forall m | m in s'.a.out
      ensures Accounted(s'.a, s'.b, s'.links, m)
    {
      assert m in s.a.out ==> Accounted(s.a, s.b, s.links, m);
      if m.Open? { RequestsAppend(s.a.out, Clse(0, l), m.local); }
    }
  }

  lemma RefusedTrafficIn(s: System, l: nat)
    requires Inv(s) && s.b.out != [] && s.b.out[0].Open? && s.b.out[0].local == l
    ensures Traffic(Refused(s, l).b, Refused(s, l).a, Flip(s.links))
  {
    var s' := Refused(s, l);
    RequestFacts(s, l);
    assert Traffic(s.b, s.a, Flip(s.links));
    hide Inv, Flip;
    PopRequests(s, l);
    forall m | m in s'.b.out
      ensures Accounted(s'.b, s'.a, Flip(s'.links), m)
    {
      assert Accounted(s.b, s.a, Flip(s.links), m);
      if m.Open? { InboxAppend(s.a.out, Clse(0, l), m.local); }
    }
  }

  lemma RefusedInv(s: System, l: nat)
    requires Inv(s) && s.b.out != [] && s.b.out[0].Open? && s.b.out[0].local == l
    ensures Inv(Refused(s, l))
  {
    RefusedTrafficOut(s, l);
    RefusedTrafficIn(s, l);
    RequestFacts(s, l);
    SameHeapCoherent(s.a, Send(s.a, Clse(0, l)));
    SameHeapCoherent(s.b, Pop(s.b));
    hide Coherent, Traffic, Stream;
    GrowStreaming(s, Send(s.a, Clse(0, l)), Pop(s.b), [Clse(0, l)]);
  }

  // ------------------------------------------------------------ one step

  /** A socket without a stream is private to its endpoint, or it waits. */
  lemma UnlinkedFacts(s: System, h: nat)
    requires Inv(s) && h in s.a.sockets && !Linked(s.links, h)
    ensures Private(s.a, h) || Waiting(s.a, h)
    ensures forall j :: j in PairOf(s.a, h) ==>
              j in s.a.sockets && !Linked(s.links, j) && (Waiting(s.a, j) ==> Waiting(s.a, h))
  {
    assert Traffic(s.a, s.b, s.links);
    if IsOpen(s.a, h) && s.a.sockets[h].peer.Local? {
      var k := s.a.sockets[h].peer.handle;
      assert SocketCoherent(s.a, h);
      hide Coherent;
      forall q: nat | (k, q) in s.links
        ensures Attached(k, View(s.a, s.b, k), q)
      {
        assert Stream(k, View(s.a, s.b, k), q, View(s.b, s.a, q));
      }
    }
    assert SocketCoherent(s.a, h);
  }

  lemma WritableInv(s: System, h: nat, r: WriteResult)
    requires Inv(s) && CanWrite(s.a, h, r)
    ensures Inv(s.(a := WriteEvent(s.a, h, r)))
  {
    if q: nat :| (h, q) in s.links {
      WritableLinked(s, h, q, r);
    } else {
      assert SocketCoherent(s.a, h);
      assert !Linked(s.links, h);
      UnlinkedFacts(s, h);
      assert Private(s.a, h);
      hide Traffic, Streaming, OneToOne, Coherent, WriteEvent;
      WriteEventCoherent(s.a, h, r);
      WriteEventWithin(s.a, h, r);
      QuietInv(s, s.(a := WriteEvent(s.a, h, r)), PairOf(s.a, h));
    }
  }

  lemma ReadableInv(s: System, h: nat, data: bytes, eof: bool, force: bool, r: WriteResult)
    requires Inv(s) && CanRead(s.a, h, data, r)
    ensures Inv(s.(a := ReadEvent(s.a, h, data, eof, force, r)))
  {
    if q: nat :| (h, q) in s.links {
      ReadableLinked(s, h, q, data, eof, force, r);
    } else {
      assert !Linked(s.links, h);
      UnlinkedFacts(s, h);
      assert Private(s.a, h);
      hide Traffic, Streaming, OneToOne, Coherent, ReadEvent;
      ReadEventCoherent(s.a, h, data, eof, force, r);
      ReadEventWithin(s.a, h, data, eof, force, r);
      QuietInv(s, s.(a := ReadEvent(s.a, h, data, eof, force, r)), PairOf(s.a, h));
    }
  }

  /** A CLSE for a socket without a stream: one whose request was refused. */
  lemma StrayClseInv(s: System, h: nat)
    requires Inv(s) && s.b.out != [] && s.b.out[0].Clse? && s.b.out[0].remote == h
    requires !Linked(s.links, h)
    ensures Inv(System(if IsOpen(s.a, h) then Close(s.a, h) else s.a, Pop(s.b), s.links))
  {
    var s' := System(if IsOpen(s.a, h) then Close(s.a, h) else s.a, Pop(s.b), s.links);
    if IsOpen(s.a, h) {
      UnlinkedFacts(s, h);
      assert !s.a.sockets[h].peer.Remote?;
      CloseWaiting(s.a, h);
      hide Traffic, Streaming, OneToOne, Coherent, Close;
      CloseCoherent(s.a, h);
      CloseWithin(s.a, h, PairOf(s.a, h));
      QuietInv(s, s', PairOf(s.a, h));
    } else {
      hide Traffic, Streaming, OneToOne, Coherent;
      QuietInv(s, s', {});
    }
  }

  /** Closing a socket that waits for its first OKAY. */
  lemma HangUpInv(s: System, destination: bytes)
    requires Inv(s)
    ensures Inv(s.(a := Close(Connect(s.a, destination, LINK), s.a.nextId)))
  {
    var h := s.a.nextId;
    var s1 := s.(a := Connect(s.a, destination, LINK));
    ConnectInv(s, destination);
    FreshId(s, h);
    assert Waiting(s1.a, h);
    CloseWaiting(s1.a, h);
    hide Traffic, Streaming, OneToOne, Coherent, Close;
    CloseCoherent(s1.a, h);
    CloseWithin(s1.a, h, PairOf(s1.a, h));
    QuietInv(s1, s1.(a := Close(s1.a, h)), PairOf(s1.a, h));
  }

  lemma CloseWaiting(e: Endpoint, h: nat)
    requires h in e.sockets
    ensures Waiting(e, h) ==> h !in Close(e, h).sockets && SameLogs(e, Close(e, h), h) && PairOf(e, h) == {h}
  {
  }

  /** What the packet at the head of the channel is about. */
  lemma HeadAccounted(s: System)
    requires Inv(s) && s.b.out != []
    ensures match s.b.out[0]
            case Open(_, _) => true
            case Okay(l, h) => (h, l) in s.links
            case Wrte(l, h, _) => (h, l) in s.links
            case Clse(_, _) => true
  {
    FlipMembers(s.links);
    assert Accounted(s.b, s.a, Flip(s.links), s.b.out[0]);
  }

  lemma DeliverClseInv(s: System, accept: bool, r: WriteResult)
    requires Inv(s) && CanDeliver(s.b.out, r) && s.b.out[0].Clse?
    ensures Inv(Step(s, Deliver(accept, r)))
  {
    hide Inv, Close;
    var h := s.b.out[0].remote;
    if q: nat :| (h, q) in s.links {
      if IsOpen(s.a, h) { ClseInv(s, h, q); } else { DropInv(s, h, q); }
    } else {
      StrayClseInv(s, h);
    }
  }

  lemma DeliverInv(s: System, accept: bool, r: WriteResult)
    requires Inv(s) && CanDeliver(s.b.out, r)
    ensures Inv(Step(s, Deliver(accept, r)))
  {
    hide Inv, Close, Enqueue;
    HeadAccounted(s);
    match s.b.out[0]
    case Open(l, _) =>
      if accept { AcceptedInv(s, l); } else { RefusedInv(s, l); }
    case Okay(l, h) =>
      if IsOpen(s.a, h) { OkayInv(s, h, l); } else { DropInv(s, h, l); }
    case Clse(_, _) => DeliverClseInv(s, accept, r);
    case Wrte(l, h, data) =>
      if IsOpen(s.a, h) { WrteInv(s, h, l, data, r); } else { DropInv(s, h, l); }
  }

  lemma StepInv(s: System, ev: Event)
    requires Inv(s)
    ensures Inv(Step(s, ev))
  {
    hide Inv;
    match ev
    case ConnectOut(destination, hangsUp) =>
      ConnectInv(s, destination);
      if hangsUp { HangUpInv(s, destination); }
    case BindService => BindInv(s);
    case Writable(h, r) => if CanWrite(s.a, h, r) { WritableInv(s, h, r); }
    case Readable(h, data, eof, force, r) =>
      if CanRead(s.a, h, data, r) { ReadableInv(s, h, data, eof, force, r); }
    case Deliver(accept, r) => if CanDeliver(s.b.out, r) { DeliverInv(s, accept, r); }
  }

  lemma StepAtInv(s: System, side: Side, ev: Event)
    requires Inv(s)
    ensures Inv(StepAt(s, side, ev))
  {
    if side == AtA {
      StepInv(s, ev);
    } else {
      MirrorInv(s);
      StepInv(Mirror(s), ev);
      MirrorInv(Step(Mirror(s), ev));
    }
  }

  /** Every run keeps the invariant. */
  lemma {:induction false} RunInv(events: seq<(Side, Event)>)
    ensures Inv(Run(events))
  {
    if events == [] {
      InitialInv();
    } else {
      var last := events[|events| - 1];
      RunInv(events[..|events| - 1]);
      StepAtInv(Run(events[..|events| - 1]), last.0, last.1);
    }
  }
}
