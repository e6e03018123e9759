/** Steps that touch no stream: local pairs of sockets, sockets still waiting
    for their first OKAY, and sockets that had no stream and are closing. */
module QuietSteps {
  import opened Bytes
  import opened Packets
  import opened Sockets
  import opened Streams
  import opened Multiplexer

  /** Endpoints e and e' differ in the sockets of `touched` only; of these, the
      ones still open keep their local peer. */
  ghost predicate Within(e: Endpoint, e': Endpoint, touched: set<nat>) {
    && e'.nextId == e.nextId && e'.out == e.out && e'.fault == e.fault
    && (forall j :: j !in touched ==> (j in e'.sockets <==> j in e.sockets))
    && (forall j :: j !in touched && j in e.sockets ==> e'.sockets[j] == e.sockets[j])
    && (forall j :: j !in touched ==> SameLogs(e, e', j))
    && (forall j :: j in touched && IsOpen(e', j) ==>
          IsOpen(e, j) && e'.sockets[j].peer == e.sockets[j].peer && e.sockets[j].peer.Local?)
  }

  lemma WithinTrans(e: Endpoint, e1: Endpoint, e2: Endpoint, touched: set<nat>)
    requires Within(e, e1, touched) && Within(e1, e2, touched)
    ensures Within(e, e2, touched)
  {
    forall j | j !in touched
      ensures SameLogs(e, e2, j)
    {
      assert SameLogs(e, e1, j) && SameLogs(e1, e2, j);
    }
  }

  lemma RetireWithin(e: Endpoint, h: nat, touched: set<nat>)
    requires h in e.sockets && h in touched
    requires forall j :: j in touched && j != h && IsOpen(e, j) ==> e.sockets[j].peer.Local?
    ensures Within(e, Retire(e, h), touched)
  {
    RetireTouches(e, h);
    assert e.out + [] == e.out;
  }

  lemma DropLocalWithin(e: Endpoint, h: nat, k: nat)
    requires h in e.sockets && e.sockets[h].peer == Local(k) && k in e.sockets && k != h
    ensures Within(e, DropPeer(e, h), {h, k})
    ensures h in DropPeer(e, h).sockets && DropPeer(e, h).sockets[h] == e.sockets[h]
    ensures !IsOpen(DropPeer(e, h), k)
  {
    var e1 := Update(e, k, e.sockets[k].(peer := NoPeer));
    assert DropPeer(e, h) == Retire(e1, k);
    hide Retire, DropPeer;
    RetireFrame(e1, k);
    DetachRetireWithin(e, h, k);
  }

  lemma DetachRetireWithin(e: Endpoint, h: nat, k: nat)
    requires h in e.sockets && e.sockets[h].peer == Local(k) && k in e.sockets && k != h
    ensures Within(e, Retire(Update(e, k, e.sockets[k].(peer := NoPeer)), k), {h, k})
  {
    hide Retire, SameLogs;
    var e1 := Update(e, k, e.sockets[k].(peer := NoPeer));
    RetireTouches(e1, k);
    RetireFrame(e1, k);
    assert e.out + [] == e.out;
    forall j | j !in {h, k}
      ensures SameLogs(e, Retire(e1, k), j)
    {
      LogsKept(e, e1, Retire(e1, k), j);
    }
  }

  lemma LogsKept(e: Endpoint, e1: Endpoint, e2: Endpoint, j: nat)
    requires e1.written == e.written && e1.handed == e.handed && e1.farewells == e.farewells && SameLogs(e1, e2, j)
    ensures SameLogs(e, e2, j)
  {
  }

  /** Closing a socket with a local peer, or with none, stays within the two. */
  lemma CloseWithin(e: Endpoint, h: nat, touched: set<nat>)
    requires Coherent(e) && h in e.sockets && !e.sockets[h].peer.Remote?
    requires touched == PairOf(e, h)
    ensures Within(e, Close(e, h), touched)
    ensures forall j :: j in touched ==> !IsOpen(Close(e, h), j)
  {
    if e.sockets[h].peer.Local? {
      var k := e.sockets[h].peer.handle;
      assert SocketCoherent(e, h);
      DropLocalWithin(e, h, k);
      var d := DropPeer(e, h);
      RetireWithin(d, h, touched);
      RetireFrame(d, h);
      hide Coherent, Retire, DropPeer;
      WithinTrans(e, d, Retire(d, h), touched);
    } else {
      assert DropPeer(e, h) == e;
      hide Coherent;
      RetireFrame(e, h);
      RetireWithin(e, h, touched);
    }
  }

  function PairOf(e: Endpoint, h: nat): set<nat>
    requires h in e.sockets
  {
    if e.sockets[h].peer.Local? then {h, e.sockets[h].peer.handle} else {h}
  }

  // ------------------------------------------------ the invariant

  /** b has handled a CLSE that belonged to no stream, or nothing. */
  ghost predicate DroppedStray(s: System, f': Endpoint) {
    || f' == s.b
    || (s.b.out != [] && f' == Pop(s.b) && s.b.out[0].Clse? && !Linked(s.links, s.b.out[0].remote))
  }

  lemma StrayInbox(s: System, f': Endpoint, id: nat)
    requires DroppedStray(s, f')
    ensures Linked(s.links, id) ==> Inbox(f'.out, id) == Inbox(s.b.out, id)
    ensures Inbox(s.b.out, id) == [] ==> Inbox(f'.out, id) == []
    ensures Requests(f'.out, id) == Requests(s.b.out, id)
    ensures forall m :: m in f'.out ==> m in s.b.out
  {
  }

  lemma QuietStreaming(s: System, s': System, touched: set<nat>)
    requires Streaming(s.a, s.b, s.links)
    requires s'.links == s.links && DroppedStray(s, s'.b)
    requires Within(s.a, s'.a, touched)
    requires forall j :: j in touched ==> !Linked(s.links, j)
    ensures Streaming(s'.a, s'.b, s'.links)
  {
    forall p: nat, q: nat | (p, q) in s.links
      ensures Stream(p, View(s'.a, s'.b, p), q, View(s'.b, s'.a, q))
    {
      assert Linked(s.links, p) && p !in touched;
      StrayInbox(s, s'.b, p);
      hide Stream;
      SameView(s.a, s.b, s'.a, s'.b, p);
      SameView(s.b, s.a, s'.b, s'.a, q);
    }
  }

  lemma QuietTraffic(s: System, s': System, touched: set<nat>)
    requires Traffic(s.a, s.b, s.links) && Traffic(s.b, s.a, Flip(s.links))
    requires s'.links == s.links && DroppedStray(s, s'.b)
    requires Within(s.a, s'.a, touched)
    requires forall j :: j in touched ==> j in s.a.sockets && !Linked(s.links, j)
    requires forall j :: j in touched && Waiting(s.a, j) ==> j !in s'.a.sockets && SameLogs(s.a, s'.a, j)
    ensures Traffic(s'.a, s'.b, s'.links)
  {
    forall m | m in s'.a.out
      ensures Accounted(s'.a, s'.b, s'.links, m)
    {
      assert Accounted(s.a, s.b, s.links, m);
      if m.Open? {
        StrayInbox(s, s'.b, m.local);
        assert SameLogs(s.a, s'.a, m.local);
      }
    }
  }

  lemma QuietTrafficIn(s: System, s': System, touched: set<nat>)
    requires Traffic(s.b, s.a, Flip(s.links)) && Coherent(s.b)
    requires s'.links == s.links && DroppedStray(s, s'.b)
    requires Within(s.a, s'.a, touched)
    ensures Coherent(s'.b)
    ensures Traffic(s'.b, s'.a, Flip(s'.links))
  {
    SameHeapCoherent(s.b, s'.b);
    hide Coherent, Flip;
    forall m | m in s'.b.out
      ensures Accounted(s'.b, s'.a, Flip(s'.links), m)
    {
      StrayInbox(s, s'.b, 0);
      assert Accounted(s.b, s.a, Flip(s.links), m);
      if m.Open? {
        StrayInbox(s, s'.b, m.local);
      }
    }
  }

  lemma QuietInv(s: System, s': System, touched: set<nat>)
    requires Inv(s)
    requires s'.links == s.links && DroppedStray(s, s'.b)
    requires Coherent(s'.a) && Within(s.a, s'.a, touched)
    requires forall j :: j in touched ==> j in s.a.sockets && !Linked(s.links, j)
    requires forall j :: j in touched && Waiting(s.a, j) ==> j !in s'.a.sockets && SameLogs(s.a, s'.a, j)
    ensures Inv(s')
  {
    hide Coherent, Traffic, Streaming;
    QuietStreaming(s, s', touched);
    QuietTraffic(s, s', touched);
    QuietTrafficIn(s, s', touched);
  }

  // ------------------------------------------- events on such sockets

  /** A socket that is closing, or whose peer is local. */
  ghost predicate Private(e: Endpoint, h: nat) {
    h in e.sockets && (e.sockets[h].closing || e.sockets[h].peer.Local?)
  }

  ghost predicate AllPrivate(e: Endpoint, h: nat) {
    h in e.sockets && forall j :: j in PairOf(e, h) ==> Private(e, j)
  }

  lemma PrivatePair(e: Endpoint, h: nat)
    requires Coherent(e) && Private(e, h)
    ensures !e.sockets[h].peer.Remote?
    ensures AllPrivate(e, h)
    ensures forall j :: j in PairOf(e, h) ==> PairOf(e, j) == PairOf(e, h)
  {
    assert SocketCoherent(e, h);
    if e.sockets[h].peer.Local? {
      assert SocketCoherent(e, e.sockets[h].peer.handle);
    }
  }

  /** Changing one private socket in place, and its histories. */
  lemma InPlaceWithin(e: Endpoint, h: nat, t: Socket, data: bytes)
    requires AllPrivate(e, h)
    requires t.peer == e.sockets[h].peer && t.closing == e.sockets[h].closing
    ensures Within(e, Update(Written(e, h, data), h, t), PairOf(e, h))
    ensures Within(e, Update(e, h, t), PairOf(e, h))
    ensures PairOf(Update(Written(e, h, data), h, t), h) == PairOf(e, h)
  {
    hide Within;
    WrittenWithin(e, h, data);
    UpdateWithin(e, h, t);
    assert AllPrivate(Written(e, h, data), h);
    UpdateWithin(Written(e, h, data), h, t);
    hide AllPrivate, Update, Written;
    WithinTrans(e, Written(e, h, data), Update(Written(e, h, data), h, t), PairOf(e, h));
  }

  lemma UpdateWithin(e: Endpoint, h: nat, t: Socket)
    requires AllPrivate(e, h)
    requires t.peer == e.sockets[h].peer && t.closing == e.sockets[h].closing
    ensures Within(e, Update(e, h, t), PairOf(e, h))
  {
  }

  lemma BacklogLeftWithin(e: Endpoint, h: nat, s: Socket, data: bytes)
    requires Coherent(e) && AllPrivate(e, h) && s == e.sockets[h].(queue := s.queue)
    requires s.queue != [] && s.wantWrite && !e.sockets[h].peer.Remote?
    requires s.closing ==> !s.wantRead
    ensures Within(e, Close(Update(Written(e, h, data), h, s), h), PairOf(e, h))
  {
    var e0 := Written(e, h, data);
    var e1 := Update(e0, h, s);
    LogCoherent(e, h, data, Clse(0, 0));
    BacklogLeftCoherent(e0, h, s);
    InPlaceWithin(e, h, s, data);
    hide Coherent, Close, AllPrivate;
    CloseWithin(e1, h, PairOf(e, h));
    WithinTrans(e, e1, Close(e1, h), PairOf(e, h));
  }

  lemma BacklogGoneWithin(e: Endpoint, h: nat, s: Socket, data: bytes)
    requires AllPrivate(e, h) && s == e.sockets[h].(queue := []) && s.peer.Local?
    ensures Within(e, Resume(Update(Update(Written(e, h, data), h, s), h, s.(wantWrite := false)), h),
                   PairOf(e, h))
  {
    var e1 := Update(Written(e, h, data), h, s);
    var e2 := Update(e1, h, s.(wantWrite := false));
    InPlaceWithin(e, h, s, data);
    InPlaceWithin(e1, h, s.(wantWrite := false), []);
    ResumeWithin(e2, h);
    hide Within, Resume;
    WithinTrans(e, e1, e2, PairOf(e, h));
    WithinTrans(e, e2, Resume(e2, h), PairOf(e, h));
  }

  lemma WriteEventWithin(e: Endpoint, h: nat, r: WriteResult)
    requires Coherent(e) && Private(e, h) && CanWrite(e, h, r)
    ensures Within(e, WriteEvent(e, h, r), PairOf(e, h))
  {
    var s := e.sockets[h];
    var s1 := s.(queue := AfterWriting(s.queue, r.taken));
    var data := Flat(s.queue)[..r.taken];
    PrivatePair(e, h);
    assert SocketCoherent(e, h);
    hide Coherent, Close, Resume, Within, AllPrivate;
    if s1.queue != [] {
      InPlaceWithin(e, h, s1, data);
      BacklogLeftWithin(e, h, s1, data);
    } else if s.closing {
      LastWriteDestroys(Written(e, h, data), h, s1);
      DestroyTouches(e, h, data);
      DestroyWithin(e, Destroy(Written(e, h, data), h), h);
    } else {
      BacklogGoneWithin(e, h, s1, data);
    }
  }

  lemma DestroyWithin(e: Endpoint, e': Endpoint, h: nat)
    requires h in e.sockets && e.sockets[h].peer.NoPeer?
    requires OnlyTouches(e, e', h, []) && h !in e'.sockets && e'.fault == e.fault
    ensures Within(e, e', PairOf(e, h))
  {
    assert e.out + [] == e.out;
  }

  lemma ResumeWithin(e: Endpoint, h: nat)
    requires AllPrivate(e, h) && e.sockets[h].peer.Local?
    ensures Within(e, Resume(e, h), PairOf(e, h))
  {
  }

  // Reading.

  lemma EnqueueWithin(e: Endpoint, k: nat, data: bytes, r: WriteResult)
    requires Coherent(e) && AllPrivate(e, k) && e.sockets[k].peer.Local? && PossibleWrite(r, |data|)
    ensures Within(e, Enqueue(e, k, data, r).0, PairOf(e, k))
  {
    var s := e.sockets[k];
    assert SocketCoherent(e, k);
    if s.queue != [] {
      InPlaceWithin(e, k, s.(queue := s.queue + [data], wantWrite := true), []);
    } else {
      var e1 := Written(e, k, data[..r.taken]);
      WrittenWithin(e, k, data[..r.taken]);
      if r.failed {
        LogCoherent(e, k, data[..r.taken], Clse(0, 0));
        hide Coherent, Close;
        CloseWithin(e1, k, PairOf(e, k));
        WithinTrans(e, e1, Close(e1, k), PairOf(e, k));
      } else if r.taken != |data| {
        InPlaceWithin(e, k, s.(queue := [data[r.taken..]], wantWrite := true), data[..r.taken]);
      }
    }
  }

  lemma WrittenWithin(e: Endpoint, h: nat, data: bytes)
    requires AllPrivate(e, h)
    ensures Within(e, Written(e, h, data), PairOf(e, h))
    ensures Within(e, Handed(e, h, data), PairOf(e, h))
  {
  }

  lemma PassOnWithin(e: Endpoint, h: nat, data: bytes, r: WriteResult)
    requires Coherent(e) && Private(e, h) && PossibleWrite(r, |data|)
    ensures Within(e, PassOn(e, h, data, r).0, PairOf(e, h))
  {
    PrivatePair(e, h);
    assert SocketCoherent(e, h);
    if e.sockets[h].peer.Local? {
      var k := e.sockets[h].peer.handle;
      var e1 := Handed(e, h, data);
      WrittenWithin(e, h, data);
      LogCoherent(e, h, data, Clse(0, 0));
      assert AllPrivate(e1, k) && PairOf(e1, k) == PairOf(e, h);
      hide Coherent, Enqueue, Within, AllPrivate;
      EnqueueWithin(e1, k, data, r);
      WithinTrans(e, e1, Enqueue(e1, k, data, r).0, PairOf(e, h));
    }
  }

  lemma StopReadingWithin(e: Endpoint, e1: Endpoint, h: nat)
    requires AllPrivate(e, h) && Within(e, e1, PairOf(e, h))
    ensures Within(e, StopReading(e1, h), PairOf(e, h))
  {
  }

  lemma ReadEventWithin(e: Endpoint, h: nat, data: bytes, eof: bool, force: bool, r: WriteResult)
    requires Coherent(e) && Private(e, h) && PossibleWrite(r, |data|)
    ensures Within(e, ReadEvent(e, h, data, eof, force, r), PairOf(e, h))
  {
    hide Coherent, Close, Within, StopReading, PassOn, AllPrivate, PairOf;
    var passes := data != [] && e.sockets[h].peer != NoPeer;
    var (e1, ready) := if passes then PassOn(e, h, data, r) else (e, false);
    var e2 := if passes && !ready then StopReading(e1, h) else e1;
    PrivatePair(e, h);
    PrivateSelf(e, h);
    if passes { PassOnWithin(e, h, data, r); PassOnCoherent(e, h, data, r); }
    StopReadingWithin(e, e1, h);
    StopReadingCoherent(e1, h);
    CloseAgainWithin(e, e2, h);
  }

  lemma PrivateSelf(e: Endpoint, h: nat)
    requires Coherent(e) && Private(e, h)
    ensures Within(e, e, PairOf(e, h))
  {
    PrivatePair(e, h);
    SelfWithin(e, PairOf(e, h));
  }

  lemma SelfWithin(e: Endpoint, touched: set<nat>)
    requires forall j :: j in touched && IsOpen(e, j) ==> e.sockets[j].peer.Local?
    ensures Within(e, e, touched)
  {
  }

  /** Closing a socket after an event that stayed within its pair. */
  lemma CloseAgainWithin(e: Endpoint, e1: Endpoint, h: nat)
    requires Coherent(e1) && AllPrivate(e, h) && Within(e, e1, PairOf(e, h))
    ensures h in e1.sockets ==> Within(e, Close(e1, h), PairOf(e, h))
  {
    if h in e1.sockets {
      assert SocketCoherent(e1, h);
      assert PairOf(e1, h) <= PairOf(e, h) && !e1.sockets[h].peer.Remote?;
      hide Coherent, Close;
      CloseWithin(e1, h, PairOf(e1, h));
      WidenWithin(e, e1, Close(e1, h), PairOf(e1, h), PairOf(e, h));
    }
  }

  lemma WidenWithin(e: Endpoint, e1: Endpoint, e2: Endpoint, small: set<nat>, touched: set<nat>)
    requires Within(e, e1, touched) && Within(e1, e2, small) && small <= touched
    ensures Within(e, e2, touched)
  {
    forall j | j !in touched
      ensures SameLogs(e, e2, j)
    {
      assert SameLogs(e, e1, j) && SameLogs(e1, e2, j);
    }
  }
}
