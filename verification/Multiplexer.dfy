/** Two endpoints joined by two FIFO channels: what every run keeps. */
module Multiplexer {
  import opened Bytes
  import opened Packets
  import opened Sockets
  import opened Streams

  /** `links` records, for every OPEN that was accepted, the socket that asked
      for the stream and the one that was created for it, a's socket first. */
  datatype System = System(a: Endpoint, b: Endpoint, links: set<(nat, nat)>)

  const Initial := System(EmptyEndpoint, EmptyEndpoint, {})

  // The transport that joins the two endpoints.
  const LINK := 1

  /** One event at an endpoint, with what its environment does. */
  datatype Event =
    | ConnectOut(destination: bytes, hangsUp: bool)
    | BindService
    | Writable(h: nat, r: WriteResult)
    | Readable(h: nat, data: bytes, eof: bool, force: bool, r: WriteResult)
    | Deliver(accept: bool, r: WriteResult)

  function Flip(links: set<(nat, nat)>): set<(nat, nat)> {
    set l | l in links :: (l.1, l.0)
  }

  /** The same system seen from the other side. */
  function Mirror(s: System): System {
    System(s.b, s.a, Flip(s.links))
  }

  predicate CanWrite(e: Endpoint, h: nat, r: WriteResult) {
    && h in e.sockets && e.sockets[h].wantWrite
    && PossibleWrite(r, |Flat(e.sockets[h].queue)|)
  }

  /** A read event needs interest, except that a closing socket may still get
      one that was pending when its interest went away. */
  predicate CanRead(e: Endpoint, h: nat, data: bytes, r: WriteResult) {
    && h in e.sockets && (e.sockets[h].wantRead || e.sockets[h].closing)
    && |data| <= MAX_PAYLOAD
    && PossibleWrite(r, |data|)
  }

  predicate CanDeliver(channel: seq<Message>, r: WriteResult) {
    channel != [] && (channel[0].Wrte? ==> PossibleWrite(r, |channel[0].data|))
  }

  /** One event at endpoint a; an event that cannot happen changes nothing. */
  function Step(s: System, ev: Event): System {
    match ev
    case ConnectOut(destination, hangsUp) =>
      // A client that has already shut down is closed before any answer arrives.
      var a1 := Connect(s.a, destination, LINK);
      s.(a := if hangsUp then Close(a1, s.a.nextId) else a1)
    case BindService => s.(a := Bind(s.a))
    case Writable(h, r) => if CanWrite(s.a, h, r) then s.(a := WriteEvent(s.a, h, r)) else s
    case Readable(h, data, eof, force, r) =>
      if CanRead(s.a, h, data, r) then s.(a := ReadEvent(s.a, h, data, eof, force, r)) else s
    case Deliver(accept, r) =>
      if CanDeliver(s.b.out, r) then
        var m := s.b.out[0];
        System(HandlePacket(s.a, m, LINK, accept, r),
               s.b.(out := s.b.out[1..]),
               if m.Open? && accept then s.links + {(s.a.nextId, m.local)} else s.links)
      else s
  }

  datatype Side = AtA | AtB

  function StepAt(s: System, side: Side, ev: Event): System {
    match side
    case AtA => Step(s, ev)
    case AtB => Mirror(Step(Mirror(s), ev))
  }

  /** The system after a run: any events, at either endpoint, in any order. */
  function Run(events: seq<(Side, Event)>): System {
    if events == [] then Initial
    else
      var last := events[|events| - 1];
      StepAt(Run(events[..|events| - 1]), last.0, last.1)
  }

  // ---------------------------------------------------------- invariant

  function View(e: Endpoint, f: Endpoint, p: nat): Half {
    var inbox := Inbox(f.out, p);
    if p in e.sockets then
      var s := e.sockets[p];
      Half(!s.closing, s.peer, s.queue, s.wantRead,
           Log(e.written, p), Log(e.handed, p), Farewells(e, p), inbox)
    else
      Half(false, NoPeer, [], false, Log(e.written, p), Log(e.handed, p), Farewells(e, p), inbox)
  }

  ghost predicate Linked(links: set<(nat, nat)>, p: nat) {
    exists q: nat :: (p, q) in links
  }

  ghost predicate Streaming(a: Endpoint, b: Endpoint, links: set<(nat, nat)>) {
    forall p: nat, q: nat :: (p, q) in links ==> Stream(p, View(a, b, p), q, View(b, a, q))
  }

  ghost predicate OneToOne(a: Endpoint, b: Endpoint, links: set<(nat, nat)>) {
    && (forall p: nat, q: nat :: (p, q) in links ==> 0 < p < a.nextId && 0 < q < b.nextId)
    && (forall p: nat, q: nat, q': nat :: (p, q) in links && (p, q') in links ==> q == q')
    && (forall p: nat, p': nat, q: nat :: (p, q) in links && (p', q) in links ==> p == p')
  }

  /** A packet in the channel from e to f is about a stream, or it is the one
      request of a socket that has no stream yet, or it is a farewell. */
  ghost predicate Accounted(e: Endpoint, f: Endpoint, links: set<(nat, nat)>, m: Message) {
    match m
    case Open(l, _) => Asking(e, f, links, l)
    case Okay(l, r) => (l, r) in links
    case Wrte(l, r, _) => (l, r) in links
    case Clse(_, r) => r < f.nextId
  }

  ghost predicate Asking(e: Endpoint, f: Endpoint, links: set<(nat, nat)>, l: nat) {
    && 0 < l < e.nextId
    && !Linked(links, l)
    && Requests(e.out, l) == 1
    && Inbox(f.out, l) == []
    && Log(e.written, l) == [] && Log(e.handed, l) == [] && Farewells(e, l) == 0
    && (l in e.sockets ==> Waiting(e, l))
  }

  ghost predicate Waiting(e: Endpoint, l: nat)
    requires l in e.sockets
  {
    var s := e.sockets[l];
    s.peer == NoPeer && s.queue == [] && !s.wantRead && !s.closing
  }

  ghost predicate Traffic(e: Endpoint, f: Endpoint, links: set<(nat, nat)>) {
    && (forall m :: m in e.out ==> Accounted(e, f, links, m))
    && (forall h :: IsOpen(e, h) && e.sockets[h].peer.Remote? ==> (h, e.sockets[h].peer.id) in links)
    && (forall h :: IsOpen(e, h) && e.sockets[h].peer.NoPeer? && !Linked(links, h) ==> Waiting(e, h))
  }

  ghost predicate Inv(s: System) {
    && Coherent(s.a) && Coherent(s.b)
    && !s.a.fault && !s.b.fault
    && OneToOne(s.a, s.b, s.links)
    && Streaming(s.a, s.b, s.links)
    && Traffic(s.a, s.b, s.links)
    && Traffic(s.b, s.a, Flip(s.links))
  }

  lemma FlipMembers(links: set<(nat, nat)>)
    ensures forall p: nat, q: nat :: (p, q) in Flip(links) <==> (q, p) in links
    ensures Flip(Flip(links)) == links
  {
    forall p: nat, q: nat
      ensures (p, q) in Flip(links) <==> (q, p) in links
    {
      if (q, p) in links {
        var l := (q, p);
        assert (l.1, l.0) in Flip(links);
      }
    }
    forall l
      ensures l in Flip(Flip(links)) <==> l in links
    {
      if l in links {
        assert (l.1, l.0) in Flip(links);
        assert (l.0, l.1) in Flip(Flip(links));
      }
    }
  }

  lemma MirrorInv(s: System)
    requires Inv(s)
    ensures Inv(Mirror(s))
  {
    FlipMembers(s.links);
  }

  lemma InitialInv()
    ensures Inv(Initial)
  {
  }

  // -------------------------------------------- steps that touch one stream

  /** Endpoint e differs from e' in socket `p` and its histories only, and `sent`
      has been sent. */
  ghost predicate OnlyTouches(e: Endpoint, e': Endpoint, p: nat, sent: seq<Message>) {
    && e'.nextId == e.nextId
    && e'.out == e.out + sent
    && (forall j :: j != p ==> (j in e'.sockets <==> j in e.sockets))
    && (forall j :: j != p && j in e.sockets ==> e'.sockets[j] == e.sockets[j])
    && (forall j :: j != p ==> SameLogs(e, e', j))
  }

  ghost predicate SameLogs(e: Endpoint, e': Endpoint, j: nat) {
    && Log(e'.written, j) == Log(e.written, j)
    && Log(e'.handed, j) == Log(e.handed, j)
    && Farewells(e', j) == Farewells(e, j)
  }

  /** At most one packet, and it belongs to the stream between p and q. */
  ghost predicate Addressed(sent: seq<Message>, p: nat, q: nat) {
    sent == [] || (|sent| == 1 && sent[0].IsFor(q) && (sent[0].Clse? || sent[0].local == p))
  }

  ghost predicate Consumed(f: Endpoint, f': Endpoint, p: nat) {
    f' == f || (f.out != [] && f.out[0].IsFor(p) && f' == f.(out := f.out[1..]))
  }

  lemma SentInbox(out: seq<Message>, sent: seq<Message>, p: nat, q: nat, id: nat)
    requires Addressed(sent, p, q)
    ensures Inbox(out + sent, id) == Inbox(out, id) + if id == q then sent else []
    ensures Requests(out + sent, id) == Requests(out, id)
  {
    if sent == [] {
      assert out + sent == out;
    } else {
      assert sent == [sent[0]];
      InboxAppend(out, sent[0], id);
      RequestsAppend(out, sent[0], id);
    }
  }

  lemma ConsumedInbox(f: Endpoint, f': Endpoint, p: nat, id: nat)
    requires Consumed(f, f', p)
    ensures id != p ==> Inbox(f'.out, id) == Inbox(f.out, id)
    ensures Requests(f'.out, id) == Requests(f.out, id)
    ensures forall m :: m in f'.out ==> m in f.out
  {
  }

  lemma SameView(e: Endpoint, f: Endpoint, e': Endpoint, f': Endpoint, p: nat)
    requires p in e'.sockets <==> p in e.sockets
    requires p in e.sockets ==> e'.sockets[p] == e.sockets[p]
    requires SameLogs(e, e', p)
    requires Inbox(f'.out, p) == Inbox(f.out, p)
    ensures View(e', f', p) == View(e, f, p)
  {
  }

  lemma OtherViews(s: System, s': System, p: nat, q: nat, sent: seq<Message>, p': nat, q': nat)
    requires OnlyTouches(s.a, s'.a, p, sent) && Addressed(sent, p, q)
    requires Consumed(s.b, s'.b, p)
    requires p' != p && q' != q
    ensures View(s'.a, s'.b, p') == View(s.a, s.b, p')
    ensures View(s'.b, s'.a, q') == View(s.b, s.a, q')
  {
    SentInbox(s.a.out, sent, p, q, q');
    ConsumedInbox(s.b, s'.b, p, p');
    SameView(s.a, s.b, s'.a, s'.b, p');
    SameView(s.b, s.a, s'.b, s'.a, q');
  }

  lemma TouchStreaming(s: System, s': System, p: nat, q: nat, sent: seq<Message>)
    requires OneToOne(s.a, s.b, s.links) && Streaming(s.a, s.b, s.links)
    requires (p, q) in s.links && s'.links == s.links
    requires OnlyTouches(s.a, s'.a, p, sent) && Addressed(sent, p, q)
    requires Consumed(s.b, s'.b, p)
    requires Stream(p, View(s'.a, s'.b, p), q, View(s'.b, s'.a, q))
    ensures Streaming(s'.a, s'.b, s'.links)
  {
    forall p': nat, q': nat | (p', q') in s.links
      ensures Stream(p', View(s'.a, s'.b, p'), q', View(s'.b, s'.a, q'))
    {
      assert p' == p <==> q' == q;
      if p' != p {
        OtherViews(s, s', p, q, sent, p', q');
        assert Stream(p', View(s.a, s.b, p'), q', View(s.b, s.a, q'));
      }
    }
  }

  lemma TouchAsking(s: System, s': System, p: nat, q: nat, sent: seq<Message>, l: nat)
    requires Asking(s.a, s.b, s.links, l)
    requires (p, q) in s.links && s'.links == s.links
    requires OnlyTouches(s.a, s'.a, p, sent) && Addressed(sent, p, q)
    requires Consumed(s.b, s'.b, p)
    ensures Asking(s'.a, s'.b, s'.links, l)
  {
    SentInbox(s.a.out, sent, p, q, l);
    ConsumedInbox(s.b, s'.b, p, l);
    assert Linked(s.links, p);
    assert SameLogs(s.a, s'.a, l);
  }

  lemma TouchTrafficOut(s: System, s': System, p: nat, q: nat, sent: seq<Message>)
    requires Traffic(s.a, s.b, s.links)
    requires (p, q) in s.links && s'.links == s.links
    requires OnlyTouches(s.a, s'.a, p, sent) && Addressed(sent, p, q) && q < s.b.nextId
    requires Consumed(s.b, s'.b, p)
    requires IsOpen(s'.a, p) ==> Attached(p, View(s'.a, s'.b, p), q)
    ensures Traffic(s'.a, s'.b, s'.links)
  {
    assert Linked(s.links, p);
    forall m | m in s'.a.out
      ensures Accounted(s'.a, s'.b, s'.links, m)
    {
      if m in s.a.out {
        assert Accounted(s.a, s.b, s.links, m);
        if m.Open? { TouchAsking(s, s', p, q, sent, m.local); }
        hide Asking;
      } else {
        assert m in sent;
      }
    }
    hide Asking, Accounted;
  }

  lemma TouchTrafficIn(s: System, s': System, p: nat, q: nat, sent: seq<Message>)
    requires Inv(s)
    requires (p, q) in s.links && s'.links == s.links
    requires OnlyTouches(s.a, s'.a, p, sent) && Addressed(sent, p, q)
    requires Consumed(s.b, s'.b, p)
    ensures Coherent(s'.b)
    ensures Traffic(s'.b, s'.a, Flip(s'.links))
  {
    FlipMembers(s.links);
    SameHeapCoherent(s.b, s'.b);
    forall m | m in s'.b.out
      ensures Accounted(s'.b, s'.a, Flip(s'.links), m)
    {
      ConsumedInbox(s.b, s'.b, p, 0);
      assert Accounted(s.b, s.a, Flip(s.links), m);
      if m.Open? {
        SentInbox(s.a.out, sent, p, q, m.local);
        ConsumedInbox(s.b, s'.b, p, m.local);
        assert (q, p) in Flip(s.links);
        assert Linked(Flip(s.links), q);
      }
    }
  }

  /** A step that touches one half of one stream keeps the invariant if it
      keeps that stream's. */
  lemma TouchInv(s: System, s': System, p: nat, q: nat, sent: seq<Message>)
    requires Inv(s)
    requires (p, q) in s.links && s'.links == s.links
    requires OnlyTouches(s.a, s'.a, p, sent) && Addressed(sent, p, q)
    requires Consumed(s.b, s'.b, p)
    requires Coherent(s'.a) && !s'.a.fault
    requires Stream(p, View(s'.a, s'.b, p), q, View(s'.b, s'.a, q))
    ensures Inv(s')
  {
    TouchStreaming(s, s', p, q, sent);
    TouchTrafficOut(s, s', p, q, sent);
    TouchTrafficIn(s, s', p, q, sent);
  }

  /** The far half sees what was sent and nothing else. */
  lemma FarView(s: System, s': System, p: nat, q: nat, sent: seq<Message>)
    requires OnlyTouches(s.a, s'.a, p, sent) && Addressed(sent, p, q)
    requires Consumed(s.b, s'.b, p)
    ensures View(s'.b, s'.a, q) == View(s.b, s.a, q).(inbox := View(s.b, s.a, q).inbox + sent)
  {
    SentInbox(s.a.out, sent, p, q, q);
  }

  function ClosingPackets(e: Endpoint, h: nat): seq<Message>
    requires h in e.sockets
  {
    if e.sockets[h].peer.Remote? then [Clse(0, e.sockets[h].peer.id)] else []
  }

  lemma RetireTouches(e: Endpoint, p: nat)
    requires p in e.sockets
    ensures OnlyTouches(e, Retire(e, p), p, [])
    ensures SameLogs(e, Retire(e, p), p)
    ensures Retire(e, p).fault == e.fault
  {
    var r := Retire(e, p);
    assert r.out == e.out + [];
    assert r.written == e.written && r.handed == e.handed && r.farewells == e.farewells;
  }

  lemma DropPeerTouches(e: Endpoint, p: nat)
    requires p in e.sockets && !e.sockets[p].peer.Local?
    ensures DropPeer(e, p).sockets == e.sockets
    ensures OnlyTouches(e, DropPeer(e, p), p, ClosingPackets(e, p))
    ensures DropPeer(e, p).fault == e.fault
    ensures Log(DropPeer(e, p).written, p) == Log(e.written, p)
    ensures Log(DropPeer(e, p).handed, p) == Log(e.handed, p)
    ensures Farewells(DropPeer(e, p), p) == Farewells(e, p) + |ClosingPackets(e, p)|
  {
    if e.sockets[p].peer.NoPeer? {
      assert e.out + [] == e.out;
    }
  }

  /** Closing a socket whose peer is not local touches no other socket. */
  lemma CloseTouches(e: Endpoint, p: nat)
    requires p in e.sockets && !e.sockets[p].peer.Local?
    ensures OnlyTouches(e, Close(e, p), p, ClosingPackets(e, p))
    ensures Close(e, p).fault == e.fault
  {
    var d := DropPeer(e, p);
    DropPeerTouches(e, p);
    RetireTouches(d, p);
    assert d.out + [] == d.out;
    forall j | j != p
      ensures SameLogs(e, Retire(d, p), j)
    {
      assert SameLogs(e, d, j) && SameLogs(d, Retire(d, p), j);
    }
  }

  lemma RetireView(e: Endpoint, f: Endpoint, p: nat)
    requires p in e.sockets
    ensures View(Retire(e, p), f, p)
         == View(e, f, p).(open := false, peer := NoPeer, wantRead := false,
                           queue := if IsOpen(e, p) then e.sockets[p].queue else [])
  {
    hide Without;
  }

  lemma CloseView(e: Endpoint, f: Endpoint, p: nat)
    requires p in e.sockets && !e.sockets[p].peer.Local?
    ensures IsOpen(e, p) ==> View(Close(e, p), f, p) == Leave(View(e, f, p))
    ensures !IsOpen(e, p) && e.sockets[p].peer.NoPeer? ==> View(Close(e, p), f, p) == Discard(View(e, f, p))
  {
    DropPeerTouches(e, p);
    RetireView(DropPeer(e, p), f, p);
    hide Retire, DropPeer;
  }

  lemma CloseLinked(s: System, p: nat, q: nat)
    requires Inv(s) && (p, q) in s.links && p in s.a.sockets
    ensures Inv(s.(a := Close(s.a, p)))
  {
    var x, y := View(s.a, s.b, p), View(s.b, s.a, q);
    var s' := s.(a := Close(s.a, p));
    var sent := ClosingPackets(s.a, p);
    assert Stream(p, x, q, y);
    assert SocketCoherent(s.a, p);
    CloseCoherent(s.a, p);
    CloseTouches(s.a, p);
    CloseView(s.a, s.b, p);
    FarView(s, s', p, q, sent);
    if IsOpen(s.a, p) {
      LeaveStream(p, x, q, y);
    } else {
      DiscardStream(p, x, q, y);
    }
    assert Stream(p, View(s'.a, s'.b, p), q, View(s'.b, s'.a, q));
    TouchInv(s, s', p, q, sent);
  }

  /** Socket `p` becomes `t`, its fd takes `data`, it hands on `given`, and
      `sent` is sent. */
  function Change(e: Endpoint, p: nat, t: Socket, data: bytes, given: bytes, sent: seq<Message>): Endpoint {
    e.(sockets := e.sockets[p := t],
       written := e.written[p := Log(e.written, p) + data],
       handed := e.handed[p := Log(e.handed, p) + given],
       out := e.out + sent)
  }

  /** Two endpoints that differ only in how empty histories are kept. */
  ghost predicate SameEndpoint(e: Endpoint, e': Endpoint) {
    && e'.sockets == e.sockets && e'.open == e.open && e'.closing == e.closing
    && e'.nextId == e.nextId && e'.out == e.out && e'.fault == e.fault
    && (forall j :: SameLogs(e, e', j))
  }

  lemma ChangeTouches(e: Endpoint, e': Endpoint, f: Endpoint, p: nat,
                      t: Socket, data: bytes, given: bytes, sent: seq<Message>)
    requires SameEndpoint(Change(e, p, t, data, given, sent), e')
    ensures OnlyTouches(e, e', p, sent)
    ensures e'.fault == e.fault
    ensures View(e', f, p) == Half(!t.closing, t.peer, t.queue, t.wantRead, Log(e.written, p) + data,
                                   Log(e.handed, p) + given, Farewells(e, p), Inbox(f.out, p))
  {
    var c := Change(e, p, t, data, given, sent);
    forall j | j != p
      ensures SameLogs(e, e', j)
    {
      assert SameLogs(e, c, j) && SameLogs(c, e', j);
    }
    assert SameLogs(c, e', p);
    assert e'.sockets == c.sockets;
  }

  /** Changing one open or lingering half of a stream in place. */
  lemma ChangeLinked(s: System, s': System, p: nat, q: nat,
                     t: Socket, data: bytes, given: bytes, sent: seq<Message>)
    requires Inv(s) && (p, q) in s.links
    requires s'.links == s.links && Addressed(sent, p, q)
    requires Consumed(s.b, s'.b, p)
    requires SameEndpoint(Change(s.a, p, t, data, given, sent), s'.a)
    requires Coherent(s'.a)
    requires var x := View(s.a, s.b, p);
             Stream(p, Half(!t.closing, t.peer, t.queue, t.wantRead, x.written + data,
                            x.handed + given, x.farewells, Inbox(s'.b.out, p)),
                    q, View(s.b, s.a, q).(inbox := View(s.b, s.a, q).inbox + sent))
    ensures Inv(s')
  {
    hide Stream, Coherent, Traffic, Streaming, OneToOne;
    ChangeTouches(s.a, s'.a, s'.b, p, t, data, given, sent);
    FarView(s, s', p, q, sent);
    TouchInv(s, s', p, q, sent);
  }

  lemma WriteIsChange(e: Endpoint, p: nat, t: Socket, data: bytes)
    ensures SameEndpoint(Change(e, p, t, data, [], []), Update(Written(e, p, data), p, t))
  {
    assert e.out + [] == e.out;
    assert Log(e.handed, p) + [] == Log(e.handed, p);
  }

  lemma WriteSendIsChange(e: Endpoint, p: nat, t: Socket, data: bytes, m: Message)
    ensures SameEndpoint(Change(e, p, t, data, [], [m]), Send(Update(Written(e, p, data), p, t), m))
  {
    assert Log(e.handed, p) + [] == Log(e.handed, p);
  }

  lemma HandSendIsChange(e: Endpoint, p: nat, t: Socket, given: bytes, m: Message)
    ensures SameEndpoint(Change(e, p, t, [], given, [m]), Update(Handed(Send(e, m), p, given), p, t))
  {
    assert Log(e.written, p) + [] == Log(e.written, p);
  }

  /** The stream of a linked socket, and what coherence says about the socket. */
  lemma LinkedFacts(s: System, p: nat, q: nat)
    requires Inv(s) && (p, q) in s.links
    ensures Stream(p, View(s.a, s.b, p), q, View(s.b, s.a, q))
    ensures p in s.a.sockets ==> SocketCoherent(s.a, p)
    ensures IsOpen(s.a, p) ==> Attached(p, View(s.a, s.b, p), q)
    ensures Coherent(s.a) && !s.a.fault
  {
    assert Stream(p, View(s.a, s.b, p), q, View(s.b, s.a, q));
  }

  lemma ViewOf(e: Endpoint, f: Endpoint, p: nat)
    requires p in e.sockets
    ensures View(e, f, p) == Half(!e.sockets[p].closing, e.sockets[p].peer, e.sockets[p].queue,
                                  e.sockets[p].wantRead, Log(e.written, p), Log(e.handed, p),
                                  Farewells(e, p), Inbox(f.out, p))
  {
  }

  lemma WritableLinked(s: System, p: nat, q: nat, r: WriteResult)
    requires Inv(s) && (p, q) in s.links && CanWrite(s.a, p, r)
    ensures Inv(s.(a := WriteEvent(s.a, p, r)))
  {
    var t := s.a.sockets[p];
    assert SocketCoherent(s.a, p);
    AfterWritingKeepsBytes(t.queue, r.taken);
    if r.taken < |Flat(t.queue)| {
      WritableSome(s, p, q, r);
    } else if t.closing {
      assert Flat(t.queue)[..r.taken] == Flat(t.queue);
      LastWriteInv(s, p, q, Flat(t.queue));
    } else {
      WritableAll(s, p, q, r);
    }
  }

  /** What a write event that leaves a backlog does. */
  lemma WriteEventLeaves(e: Endpoint, p: nat, r: WriteResult)
    requires p in e.sockets && PossibleWrite(r, |Flat(e.sockets[p].queue)|)
    requires r.taken < |Flat(e.sockets[p].queue)|
    ensures var t := e.sockets[p];
            var e1 := Update(Written(e, p, Flat(t.queue)[..r.taken]), p,
                             t.(queue := AfterWriting(t.queue, r.taken)));
            WriteEvent(e, p, r) == if r.failed then Close(e1, p) else e1
  {
    AfterWritingKeepsBytes(e.sockets[p].queue, r.taken);
    hide Close, Resume;
  }

  lemma BacklogInv(s: System, p: nat, q: nat, n: nat)
    requires Inv(s) && (p, q) in s.links && p in s.a.sockets
    requires n < |Flat(s.a.sockets[p].queue)|
    ensures var t := s.a.sockets[p];
            Inv(s.(a := Update(Written(s.a, p, Flat(t.queue)[..n]), p,
                               t.(queue := AfterWriting(t.queue, n)))))
  {
    hide Inv, Coherent, SameEndpoint;
    LinkedFacts(s, p, q);
    ViewOf(s.a, s.b, p);
    hide Stream, View;
    var x, y := View(s.a, s.b, p), View(s.b, s.a, q);
    var t := s.a.sockets[p];
    var data := Flat(t.queue)[..n];
    var t1 := t.(queue := AfterWriting(t.queue, n));
    AfterWritingKeepsBytes(t.queue, n);
    WriteSomeStream(p, x, q, y, n);
    LogCoherent(s.a, p, data, Clse(0, 0));
    UpdateCoherent(Written(s.a, p, data), p, t1);
    WriteIsChange(s.a, p, t1, data);
    assert y.inbox + [] == y.inbox && x.handed + [] == x.handed;
    ChangeLinked(s, s.(a := Update(Written(s.a, p, data), p, t1)), p, q, t1, data, [], []);
  }

  lemma WritableSome(s: System, p: nat, q: nat, r: WriteResult)
    requires Inv(s) && (p, q) in s.links && CanWrite(s.a, p, r)
    requires r.taken < |Flat(s.a.sockets[p].queue)|
    ensures Inv(s.(a := WriteEvent(s.a, p, r)))
  {
    hide Inv, WriteEvent, Close;
    WriteEventLeaves(s.a, p, r);
    BacklogInv(s, p, q, r.taken);
    if r.failed {
      var t := s.a.sockets[p];
      var a1 := Update(Written(s.a, p, Flat(t.queue)[..r.taken]), p,
                       t.(queue := AfterWriting(t.queue, r.taken)));
      CloseLinked(s.(a := a1), p, q);
    }
  }

  lemma DestroyTouches(e: Endpoint, p: nat, data: bytes)
    ensures OnlyTouches(e, Destroy(Written(e, p, data), p), p, [])
  {
    assert e.out + [] == e.out;
  }

  lemma DestroyView(e: Endpoint, f: Endpoint, p: nat, data: bytes)
    ensures View(Destroy(Written(e, p, data), p), f, p)
         == Half(false, NoPeer, [], false, Log(e.written, p) + data, Log(e.handed, p),
                 Farewells(e, p), Inbox(f.out, p))
  {
    hide Without;
  }

  /** The last bytes of a closing socket are written and it is destroyed. */
  lemma LastWriteInv(s: System, p: nat, q: nat, data: bytes)
    requires Inv(s) && (p, q) in s.links && p in s.a.sockets && s.a.sockets[p].closing
    requires data == Flat(s.a.sockets[p].queue)
    ensures Inv(s.(a := Close(Update(Written(s.a, p, data), p, s.a.sockets[p].(queue := [])), p)))
  {
    hide Inv, Coherent, SameEndpoint, Consumed;
    LinkedFacts(s, p, q);
    ViewOf(s.a, s.b, p);
    var x, y := View(s.a, s.b, p), View(s.b, s.a, q);
    var x' := Half(false, NoPeer, [], false, x.written + data, x.handed, x.farewells, x.inbox);
    assert Stream(p, x', q, y) by {
      assert x.written + Flat(x.queue) == (x.written + data) + Flat([]);
    }
    hide Stream, View, SocketCoherent, Close;
    var e0 := Written(s.a, p, data);
    LogCoherent(s.a, p, data, Clse(0, 0));
    DestroyCoherent(e0, p);
    LastWriteDestroys(e0, p, s.a.sockets[p].(queue := []));
    DestroyTouches(s.a, p, data);
    DestroyView(s.a, s.b, p, data);
    var s' := s.(a := Destroy(e0, p));
    FarView(s, s', p, q, []);
    assert y.inbox + [] == y.inbox;
    TouchInv(s, s', p, q, []);
  }

  /** What a write event that empties a remote-bound socket's backlog does. */
  lemma WriteEventDrains(e: Endpoint, p: nat, q: nat, r: WriteResult)
    requires p in e.sockets && IsOpen(e, p) && r == WriteResult(|Flat(e.sockets[p].queue)|, false)
    requires e.sockets[p].peer.Remote? && e.sockets[p].peer.id == q
    ensures WriteEvent(e, p, r)
         == Send(Update(Written(e, p, Flat(e.sockets[p].queue)), p,
                        e.sockets[p].(queue := [], wantWrite := false)), Okay(p, q))
  {
    hide Close;
    var t := e.sockets[p];
    AfterWritingKeepsBytes(t.queue, r.taken);
    var e0 := Written(e, p, Flat(t.queue));
    assert Flat(t.queue)[..r.taken] == Flat(t.queue);
    assert Update(e0, p, t.(queue := [])).sockets[p := t.(queue := [], wantWrite := false)]
        == e0.sockets[p := t.(queue := [], wantWrite := false)];
  }

  lemma WritableAll(s: System, p: nat, q: nat, r: WriteResult)
    requires Inv(s) && (p, q) in s.links && CanWrite(s.a, p, r)
    requires r.taken == |Flat(s.a.sockets[p].queue)| && IsOpen(s.a, p)
    ensures Inv(s.(a := WriteEvent(s.a, p, r)))
  {
    hide Inv, Coherent, SameEndpoint;
    LinkedFacts(s, p, q);
    ViewOf(s.a, s.b, p);
    var x, y := View(s.a, s.b, p), View(s.b, s.a, q);
    var t := s.a.sockets[p];
    assert t.peer.Remote? && t.peer.id == q;
    hide Stream, View, SocketCoherent, WriteEvent, Attached;
    var data := Flat(t.queue);
    WriteAllStream(p, x, q, y);
    WriteEventCoherent(s.a, p, r);
    WriteEventDrains(s.a, p, q, r);
    var t1 := t.(queue := [], wantWrite := false);
    WriteSendIsChange(s.a, p, t1, data, Okay(p, q));
    assert x.handed + [] == x.handed;
    ChangeLinked(s, s.(a := WriteEvent(s.a, p, r)), p, q, t1, data, [], [Okay(p, q)]);
  }

  // ------------------------------------------------- reading from an fd

  /** A socket bound to a remote one hands on what it read. */
  lemma ReadIsChange(e: Endpoint, p: nat, q: nat, data: bytes, r: WriteResult)
    requires IsOpen(e, p) && e.sockets[p].peer.Remote? && e.sockets[p].peer.id == q
    requires PossibleWrite(r, |data|)
    ensures var e1 := Update(Handed(Send(e, Wrte(p, q, data)), p, data), p,
                             e.sockets[p].(wantRead := false));
            StopReading(PassOn(e, p, data, r).0, p) == e1 && !PassOn(e, p, data, r).1
  {
  }

  lemma SendInv(s: System, p: nat, q: nat, data: bytes)
    requires Inv(s) && (p, q) in s.links && IsOpen(s.a, p) && s.a.sockets[p].wantRead
    ensures s.a.sockets[p].peer.Remote? && s.a.sockets[p].peer.id == q
    ensures Inv(s.(a := Update(Handed(Send(s.a, Wrte(p, q, data)), p, data), p,
                               s.a.sockets[p].(wantRead := false))))
  {
    hide Inv, Coherent, SameEndpoint;
    LinkedFacts(s, p, q);
    ViewOf(s.a, s.b, p);
    var x, y := View(s.a, s.b, p), View(s.b, s.a, q);
    assert s.a.sockets[p].peer.Remote? && s.a.sockets[p].peer.id == q;
    hide Stream, View, SocketCoherent, Attached;
    var m := Wrte(p, q, data);
    var t := s.a.sockets[p].(wantRead := false);
    SendStream(p, x, q, y, data);
    LogCoherent(s.a, p, [], m);
    LogCoherent(Send(s.a, m), p, data, m);
    UpdateCoherent(Handed(Send(s.a, m), p, data), p, t);
    HandSendIsChange(s.a, p, t, data, m);
    assert x.written + [] == x.written;
    ChangeLinked(s, s.(a := Update(Handed(Send(s.a, m), p, data), p, t)), p, q, t, [], data, [m]);
  }

  lemma ReadableLinked(s: System, p: nat, q: nat, data: bytes, eof: bool, force: bool, r: WriteResult)
    requires Inv(s) && (p, q) in s.links && CanRead(s.a, p, data, r)
    ensures Inv(s.(a := ReadEvent(s.a, p, data, eof, force, r)))
  {
    LinkedFacts(s, p, q);
    var t := s.a.sockets[p];
    if t.closing || data == [] {
      assert ReadEvent(s.a, p, data, eof, force, r) == if eof then Close(s.a, p) else s.a;
      CloseLinked(s, p, q);
    } else {
      assert IsOpen(s.a, p) && t.wantRead;
      hide Inv, Stream, Coherent, Close;
      SendInv(s, p, q, data);
      ReadIsChange(s.a, p, q, data, r);
      var a1 := Update(Handed(Send(s.a, Wrte(p, q, data)), p, data), p, t.(wantRead := false));
      assert ReadEvent(s.a, p, data, eof, force, r) == if eof then Close(a1, p) else a1;
      CloseLinked(s.(a := a1), p, q);
    }
  }

  // ---------------------------------------- packets that belong to a stream

  function Pop(e: Endpoint): Endpoint
    requires e.out != []
  {
    e.(out := e.out[1..])
  }

  lemma PopView(e: Endpoint, f: Endpoint, p: nat)
    requires f.out != [] && f.out[0].IsFor(p)
    ensures View(e, f, p).inbox != [] && View(e, f, p).inbox[0] == f.out[0]
    ensures View(e, Pop(f), p) == View(e, f, p).(inbox := View(e, f, p).inbox[1..])
    ensures Consumed(f, Pop(f), p)
  {
    var rest := Inbox(f.out[1..], p);
    assert Inbox(f.out, p) == [f.out[0]] + rest;
    assert ([f.out[0]] + rest)[1..] == rest;
  }

  lemma TouchesNothing(e: Endpoint, p: nat)
    ensures OnlyTouches(e, e, p, [])
  {
    assert e.out + [] == e.out;
  }

  lemma DropInv(s: System, p: nat, q: nat)
    requires Inv(s) && (p, q) in s.links && !IsOpen(s.a, p)
    requires s.b.out != [] && s.b.out[0].IsFor(p)
    ensures Inv(s.(b := Pop(s.b)))
  {
    hide Inv, Coherent, SameEndpoint, Consumed;
    LinkedFacts(s, p, q);
    var x, y := View(s.a, s.b, p), View(s.b, s.a, q);
    var s' := s.(b := Pop(s.b));
    PopView(s.a, s.b, p);
    hide Stream;
    DropStream(p, x, q, y);
    TouchesNothing(s.a, p);
    FarView(s, s', p, q, []);
    assert y.inbox + [] == y.inbox;
    TouchInv(s, s', p, q, []);
  }

  /** A socket after an OKAY from socket `q` of the far side. */
  function Granted(t: Socket, q: nat): Socket {
    t.(wantRead := true, peer := if t.peer.NoPeer? then Remote(q, LINK) else t.peer)
  }

  lemma OkayInv(s: System, p: nat, q: nat)
    requires Inv(s) && (p, q) in s.links && IsOpen(s.a, p)
    requires s.b.out != [] && s.b.out[0] == Okay(q, p)
    ensures Inv(System(Update(s.a, p, Granted(s.a.sockets[p], q)), Pop(s.b), s.links))
  {
    hide Inv, Coherent, SameEndpoint, Consumed;
    LinkedFacts(s, p, q);
    ViewOf(s.a, s.b, p);
    var x, y := View(s.a, s.b, p), View(s.b, s.a, q);
    var t := Granted(s.a.sockets[p], q);
    PopView(s.a, s.b, p);
    hide Stream, View, SocketCoherent, Attached;
    OkayStream(p, x, q, y, LINK);
    UpdateCoherent(s.a, p, t);
    UpdateIsChange(s.a, p, t);
    assert x.written + [] == x.written && x.handed + [] == x.handed && y.inbox + [] == y.inbox;
    ChangeLinked(s, System(Update(s.a, p, t), Pop(s.b), s.links), p, q, t, [], [], []);
  }

  lemma UpdateIsChange(e: Endpoint, p: nat, t: Socket)
    ensures SameEndpoint(Change(e, p, t, [], [], []), Update(e, p, t))
  {
    assert e.out + [] == e.out;
    assert Log(e.handed, p) + [] == Log(e.handed, p) && Log(e.written, p) + [] == Log(e.written, p);
  }

  lemma ClseInv(s: System, p: nat, q: nat)
    requires Inv(s) && (p, q) in s.links && IsOpen(s.a, p)
    requires s.b.out != [] && s.b.out[0].Clse? && s.b.out[0].IsFor(p)
    ensures Inv(System(Close(s.a, p), Pop(s.b), s.links))
  {
    hide Inv, Coherent, SameEndpoint, Consumed;
    LinkedFacts(s, p, q);
    ViewOf(s.a, s.b, p);
    var x, y := View(s.a, s.b, p), View(s.b, s.a, q);
    var s' := System(Close(s.a, p), Pop(s.b), s.links);
    var sent := ClosingPackets(s.a, p);
    assert Addressed(sent, p, q);
    PopView(s.a, s.b, p);
    hide Stream, View, SocketCoherent, Close, Attached;
    ClseStream(p, x, q, y);
    CloseCoherent(s.a, p);
    CloseTouches(s.a, p);
    CloseView(s.a, Pop(s.b), p);
    FarView(s, s', p, q, sent);
    TouchInv(s, s', p, q, sent);
  }

  lemma WrteInv(s: System, p: nat, q: nat, data: bytes, r: WriteResult)
    requires Inv(s) && (p, q) in s.links && IsOpen(s.a, p) && PossibleWrite(r, |data|)
    requires s.b.out != [] && s.b.out[0] == Wrte(q, p, data)
    ensures Inv(System(HandlePacket(s.a, Wrte(q, p, data), LINK, true, r), Pop(s.b), s.links))
  {
    LinkedFacts(s, p, q);
    PopView(s.a, s.b, p);
    var x, y := View(s.a, s.b, p), View(s.b, s.a, q);
    WrteFindsRoom(p, x, q, y, data);
    hide Inv, Stream, Coherent, Close;
    assert s.a.sockets[p].queue == [];
    if r.failed {
      WrteFailsInv(s, p, q, data, r);
    } else if r.taken == |data| {
      assert data[..r.taken] == data;
      WrteAllInv(s, p, q, data);
    } else {
      WrteSomeInv(s, p, q, data, r.taken);
    }
  }

  lemma WrteAllInv(s: System, p: nat, q: nat, data: bytes)
    requires Inv(s) && (p, q) in s.links && IsOpen(s.a, p)
    requires s.b.out != [] && s.b.out[0] == Wrte(q, p, data)
    ensures Inv(System(Send(Written(s.a, p, data), Okay(p, q)), Pop(s.b), s.links))
  {
    hide Inv, Coherent, SameEndpoint, Consumed;
    LinkedFacts(s, p, q);
    ViewOf(s.a, s.b, p);
    PopView(s.a, s.b, p);
    var x, y := View(s.a, s.b, p), View(s.b, s.a, q);
    hide Stream, View, SocketCoherent, Attached;
    WrteAllStream(p, x, q, y, data);
    WrittenSendCoherent(s.a, p, data, Okay(p, q));
    WrittenSendIsChange(s.a, p, data, Okay(p, q));
    var a' := Send(Written(s.a, p, data), Okay(p, q));
    assert x.handed + [] == x.handed;
    ChangeLinked(s, System(a', Pop(s.b), s.links), p, q, s.a.sockets[p], data, [], [Okay(p, q)]);
  }

  lemma WrittenSendCoherent(e: Endpoint, p: nat, data: bytes, m: Message)
    requires Coherent(e) && p in e.sockets
    ensures Coherent(Send(Written(e, p, data), m))
  {
    LogCoherent(e, p, data, m);
    LogCoherent(Written(e, p, data), p, [], m);
  }

  lemma WrittenSendIsChange(e: Endpoint, p: nat, data: bytes, m: Message)
    requires p in e.sockets
    ensures SameEndpoint(Change(e, p, e.sockets[p], data, [], [m]), Send(Written(e, p, data), m))
  {
    assert Log(e.handed, p) + [] == Log(e.handed, p);
    assert e.sockets[p := e.sockets[p]] == e.sockets;
  }

  lemma WrteSomeInv(s: System, p: nat, q: nat, data: bytes, n: nat)
    requires Inv(s) && (p, q) in s.links && IsOpen(s.a, p) && n < |data| && s.a.sockets[p].queue == []
    requires s.b.out != [] && s.b.out[0] == Wrte(q, p, data)
    ensures Inv(System(Update(Written(s.a, p, data[..n]), p,
                              s.a.sockets[p].(queue := [data[n..]], wantWrite := true)),
                       Pop(s.b), s.links))
  {
    hide Inv, Coherent, SameEndpoint, Consumed;
    LinkedFacts(s, p, q);
    ViewOf(s.a, s.b, p);
    PopView(s.a, s.b, p);
    var x, y := View(s.a, s.b, p), View(s.b, s.a, q);
    hide Stream, View, SocketCoherent, Attached;
    WrteSomeStream(p, x, q, y, data, n);
    var t := s.a.sockets[p].(queue := [data[n..]], wantWrite := true);
    var a' := Update(Written(s.a, p, data[..n]), p, t);
    LogCoherent(s.a, p, data[..n], Okay(p, q));
    UpdateCoherent(Written(s.a, p, data[..n]), p, t);
    WriteIsChange(s.a, p, t, data[..n]);
    assert x.handed + [] == x.handed && y.inbox + [] == y.inbox;
    ChangeLinked(s, System(a', Pop(s.b), s.links), p, q, t, data[..n], [], []);
  }

  lemma WrteFailsInv(s: System, p: nat, q: nat, data: bytes, r: WriteResult)
    requires Inv(s) && (p, q) in s.links && IsOpen(s.a, p) && PossibleWrite(r, |data|) && r.failed
    requires s.b.out != [] && s.b.out[0] == Wrte(q, p, data)
    ensures Inv(System(Close(Written(s.a, p, data[..r.taken]), p), Pop(s.b), s.links))
  {
    hide Inv, Coherent, SameEndpoint, Consumed;
    LinkedFacts(s, p, q);
    ViewOf(s.a, s.b, p);
    PopView(s.a, s.b, p);
    var x, y := View(s.a, s.b, p), View(s.b, s.a, q);
    var e0 := Written(s.a, p, data[..r.taken]);
    var s' := System(Close(e0, p), Pop(s.b), s.links);
    var sent := ClosingPackets(s.a, p);
    assert Addressed(sent, p, q);
    hide Stream, View, SocketCoherent, Close, Attached;
    WrteFailsStream(p, x, q, y, data, r.taken);
    LogCoherent(s.a, p, data[..r.taken], Okay(p, q));
    CloseCoherent(e0, p);
    CloseTouches(e0, p);
    CloseView(e0, Pop(s.b), p);
    WrittenTouches(s.a, e0, Close(e0, p), p, data[..r.taken], sent);
    FarView(s, s', p, q, sent);
    TouchInv(s, s', p, q, sent);
  }

  lemma WrittenTouches(e: Endpoint, e0: Endpoint, e': Endpoint, p: nat, data: bytes, sent: seq<Message>)
    requires e0 == Written(e, p, data) && OnlyTouches(e0, e', p, sent)
    ensures OnlyTouches(e, e', p, sent)
  {
    forall j | j != p
      ensures SameLogs(e, e', j)
    {
      assert SameLogs(e, e0, j) && SameLogs(e0, e', j);
    }
  }
}
