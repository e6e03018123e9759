/** What an event leaves alone: every socket that it is not about, its histories,
    and what a closed half of a stream has said and handed over. */
module Bystanders {
  import opened Bytes
  import opened Packets
  import opened Sockets
  import opened Multiplexer

  /** Socket `j` and its histories are the same in both states. */
  ghost predicate Spares(e: Endpoint, e': Endpoint, j: nat) {
    && (j in e'.sockets <==> j in e.sockets)
    && (j in e.sockets ==> e'.sockets[j] == e.sockets[j])
    && SameLogs(e, e', j)
  }

  /** No socket of this endpoint is the peer of `j`. */
  ghost predicate Lone(e: Endpoint, j: nat) {
    j in e.sockets ==> !e.sockets[j].peer.Local?
  }

  lemma LoneApart(e: Endpoint, h: nat, j: nat)
    requires Coherent(e) && Lone(e, j) && h in e.sockets
    ensures e.sockets[h].peer != Local(j)
  {
    assert SocketCoherent(e, h);
  }

  lemma RetireSpares(e: Endpoint, h: nat, j: nat)
    requires h in e.sockets && j != h
    ensures Spares(e, Retire(e, h), j)
  {
  }

  lemma CloseSpares(e: Endpoint, h: nat, j: nat)
    requires h in e.sockets && j != h && e.sockets[h].peer != Local(j)
    ensures Spares(e, Close(e, h), j)
  {
    var d := DropPeer(e, h);
    if e.sockets[h].peer.Local? && e.sockets[h].peer.handle in e.sockets && e.sockets[h].peer.handle != h {
      var k := e.sockets[h].peer.handle;
      RetireSpares(Update(e, k, e.sockets[k].(peer := NoPeer)), k, j);
    }
    RetireSpares(d, h, j);
    hide Retire;
  }

  lemma UpdateSpares(e: Endpoint, h: nat, t: Socket, j: nat)
    requires j != h
    ensures Spares(e, Update(e, h, t), j)
  {
  }

  lemma LogSpares(e: Endpoint, h: nat, data: bytes, m: Message, j: nat)
    requires j != h
    ensures Spares(e, Written(e, h, data), j) && Spares(e, Handed(e, h, data), j) && Spares(e, Send(e, m), j)
  {
  }

  lemma SparesTrans(e: Endpoint, e1: Endpoint, e2: Endpoint, j: nat)
    requires Spares(e, e1, j) && Spares(e1, e2, j)
    ensures Spares(e, e2, j)
  {
  }

  lemma EnqueueSpares(e: Endpoint, h: nat, data: bytes, r: WriteResult, j: nat)
    requires h in e.sockets && PossibleWrite(r, |data|) && j != h && e.sockets[h].peer != Local(j)
    ensures Spares(e, Enqueue(e, h, data, r).0, j)
  {
    hide Close, Spares, Update, Written;
    var s := e.sockets[h];
    var e1 := Written(e, h, data[..r.taken]);
    assert e1.sockets == e.sockets by { WrittenKeepsSockets(e, h, data[..r.taken]); }
    UpdateSpares(e, h, s.(queue := s.queue + [data], wantWrite := true), j);
    LogSpares(e, h, data[..r.taken], Clse(0, 0), j);
    CloseSpares(e1, h, j);
    SparesTrans(e, e1, Close(e1, h), j);
    if s.queue == [] && !r.failed && r.taken != |data| {
      var t := s.(queue := [data[r.taken..]], wantWrite := true);
      UpdateSpares(e1, h, t, j);
      SparesTrans(e, e1, Update(e1, h, t), j);
    }
  }

  lemma WrittenKeepsSockets(e: Endpoint, h: nat, data: bytes)
    ensures Written(e, h, data).sockets == Handed(e, h, data).sockets == e.sockets
  {
  }

  lemma ResumeSpares(e: Endpoint, h: nat, j: nat)
    requires h in e.sockets && e.sockets[h].peer != Local(j)
    ensures Spares(e, Resume(e, h), j)
  {
  }

  lemma WriteEventSpares(e: Endpoint, h: nat, r: WriteResult, j: nat)
    requires h in e.sockets && PossibleWrite(r, |Flat(e.sockets[h].queue)|)
    requires j != h && e.sockets[h].peer != Local(j)
    ensures Spares(e, WriteEvent(e, h, r), j)
  {
    var s := e.sockets[h];
    var data := Flat(s.queue)[..r.taken];
    var s1 := s.(queue := AfterWriting(s.queue, r.taken));
    var e0 := Written(e, h, data);
    var e1 := Update(e0, h, s1);
    var e2 := Update(e1, h, s1.(wantWrite := false));
    assert e1.sockets[h] == s1 && e2.sockets[h] == s1.(wantWrite := false);
    hide Close, Resume, Spares, Update, Written, AfterWriting, Flat;
    LogSpares(e, h, data, Clse(0, 0), j);
    UpdateSpares(e0, h, s1, j);
    SparesTrans(e, e0, e1, j);
    CloseSpares(e1, h, j);
    SparesTrans(e, e1, Close(e1, h), j);
    UpdateSpares(e1, h, s1.(wantWrite := false), j);
    SparesTrans(e, e1, e2, j);
    ResumeSpares(e2, h, j);
    SparesTrans(e, e2, Resume(e2, h), j);
  }

  lemma PassOnSpares(e: Endpoint, h: nat, data: bytes, r: WriteResult, j: nat)
    requires Coherent(e) && h in e.sockets && PossibleWrite(r, |data|) && j != h && e.sockets[h].peer != Local(j)
    ensures Spares(e, PassOn(e, h, data, r).0, j)
  {
    assert SocketCoherent(e, h);
    match e.sockets[h].peer
    case NoPeer =>
    case Remote(id, _) =>
      hide Coherent, Spares;
      LogSpares(e, h, [], Wrte(h, id, data), j);
      LogSpares(Send(e, Wrte(h, id, data)), h, data, Clse(0, 0), j);
      SparesTrans(e, Send(e, Wrte(h, id, data)), Handed(Send(e, Wrte(h, id, data)), h, data), j);
    case Local(k) =>
      hide Enqueue, Coherent, Spares, Handed;
      var e1 := Handed(e, h, data);
      assert e1.sockets == e.sockets by { WrittenKeepsSockets(e, h, data); }
      LogSpares(e, h, data, Clse(0, 0), j);
      EnqueueSpares(e1, k, data, r, j);
      SparesTrans(e, e1, Enqueue(e1, k, data, r).0, j);
  }

  lemma SparesSelf(e: Endpoint, j: nat)
    ensures Spares(e, e, j)
  {
  }

  lemma StopReadingSpares(e: Endpoint, h: nat, j: nat)
    requires j != h
    ensures Spares(e, StopReading(e, h), j)
  {
  }

  /** A socket does not become the peer of one that is spared. */
  lemma ApartStays(e: Endpoint, e': Endpoint, h: nat, j: nat)
    requires Coherent(e) && Coherent(e') && Spares(e, e', j)
    requires h in e.sockets && e.sockets[h].peer != Local(j) && h in e'.sockets
    ensures e'.sockets[h].peer != Local(j)
  {
    assert SocketCoherent(e', h);
    assert j in e.sockets ==> SocketCoherent(e, j);
  }

  lemma ReadEventSpares(e: Endpoint, h: nat, data: bytes, eof: bool, force: bool, r: WriteResult, j: nat)
    requires Coherent(e) && h in e.sockets && PossibleWrite(r, |data|) && j != h && e.sockets[h].peer != Local(j)
    ensures Spares(e, ReadEvent(e, h, data, eof, force, r), j)
  {
    hide Coherent, Close, PassOn, Spares, StopReading;
    var passes := data != [] && e.sockets[h].peer != NoPeer;
    var (e1, ready) := if passes then PassOn(e, h, data, r) else (e, false);
    var e2 := if passes && !ready then StopReading(e1, h) else e1;
    SparesSelf(e, j);
    if passes {
      PassOnSpares(e, h, data, r, j);
      PassOnCoherent(e, h, data, r);
    }
    StopReadingSpares(e1, h, j);
    StopReadingCoherent(e1, h);
    SparesTrans(e, e1, StopReading(e1, h), j);
    if h in e2.sockets {
      ApartStays(e, e2, h, j);
      CloseSpares(e2, h, j);
      SparesTrans(e, e2, Close(e2, h), j);
    }
  }

  lemma HandlePacketSpares(e: Endpoint, m: Message, accept: bool, r: WriteResult, j: nat)
    requires j < e.nextId && !m.IsFor(j) && (m.Wrte? ==> PossibleWrite(r, |m.data|))
    requires !m.Open? && m.remote in e.sockets ==> e.sockets[m.remote].peer != Local(j)
    ensures Spares(e, HandlePacket(e, m, LINK, accept, r), j)
  {
    hide Close, Enqueue;
    match m
    case Open(_, _) =>
    case Okay(_, _) =>
    case Clse(_, h) => if IsOpen(e, h) { CloseSpares(e, h, j); }
    case Wrte(l, h, data) =>
      if IsOpen(e, h) {
        hide Spares;
        EnqueueSpares(e, h, data, r, j);
        var e1 := Enqueue(e, h, data, r).0;
        LogSpares(e1, h, [], Okay(h, l), j);
        SparesTrans(e, e1, Send(e1, Okay(h, l)), j);
      } else {
        SparesSelf(e, j);
      }
  }

  /** The event is about socket `p` of its endpoint. */
  predicate About(s: System, ev: Event, p: nat) {
    match ev
    case Writable(h, _) => h == p
    case Readable(h, _, _, _, _) => h == p
    case Deliver(_, _) => s.b.out != [] && s.b.out[0].IsFor(p)
    case _ => false
  }

  lemma LinkedLone(s: System, p: nat, q: nat)
    requires Inv(s) && (p, q) in s.links
    ensures Lone(s.a, p) && p < s.a.nextId && Coherent(s.a)
  {
    LinkedFacts(s, p, q);
  }

  lemma ConnectSpares(e: Endpoint, destination: bytes, j: nat)
    requires j < e.nextId
    ensures Spares(e, Connect(e, destination, LINK), j)
    ensures Spares(e, Close(Connect(e, destination, LINK), e.nextId), j)
  {
    CloseSpares(Connect(e, destination, LINK), e.nextId, j);
    hide Close;
  }

  /** The socket that an event is about is not the peer of `p`. */
  ghost predicate NoPeerActs(s: System, ev: Event, p: nat) {
    match ev
    case Writable(h, _) => h in s.a.sockets ==> s.a.sockets[h].peer != Local(p)
    case Readable(h, _, _, _, _) => h in s.a.sockets ==> s.a.sockets[h].peer != Local(p)
    case Deliver(_, _) =>
      s.b.out != [] && !s.b.out[0].Open? && s.b.out[0].remote in s.a.sockets ==>
        s.a.sockets[s.b.out[0].remote].peer != Local(p)
    case _ => true
  }

  /** An event leaves alone every socket that neither it nor its local peer is about. */
  lemma StepSparesApart(s: System, ev: Event, p: nat)
    requires Coherent(s.a) && p < s.a.nextId && !About(s, ev, p) && NoPeerActs(s, ev, p)
    ensures Spares(s.a, Step(s, ev).a, p)
  {
    hide Coherent, Close, WriteEvent, ReadEvent, HandlePacket, Spares, Connect, Bind;
    SparesSelf(s.a, p);
    match ev
    case ConnectOut(destination, _) => ConnectSpares(s.a, destination, p);
    case BindService => BindSpares(s.a, p);
    case Writable(h, r) => if CanWrite(s.a, h, r) { WriteEventSpares(s.a, h, r, p); }
    case Readable(h, data, eof, force, r) =>
      if CanRead(s.a, h, data, r) { ReadEventSpares(s.a, h, data, eof, force, r, p); }
    case Deliver(accept, r) =>
      if CanDeliver(s.b.out, r) { HandlePacketSpares(s.a, s.b.out[0], accept, r, p); }
  }

  /** An event leaves alone every socket that it is not about and that is no local
      peer, whether it exists any more or not. */
  lemma StepSparesLone(s: System, ev: Event, p: nat)
    requires Coherent(s.a) && Lone(s.a, p) && p < s.a.nextId && !About(s, ev, p)
    ensures Spares(s.a, Step(s, ev).a, p)
  {
    hide Coherent, Lone, Step, Spares;
    forall h | h in s.a.sockets
      ensures s.a.sockets[h].peer != Local(p)
    {
      LoneApart(s.a, h, p);
    }
    StepSparesApart(s, ev, p);
  }

  lemma StepSpares(s: System, ev: Event, p: nat, q: nat)
    requires Inv(s) && (p, q) in s.links && !About(s, ev, p)
    ensures Spares(s.a, Step(s, ev).a, p)
  {
    hide Inv, Coherent, Lone, Step, Spares, About;
    LinkedLone(s, p, q);
    StepSparesLone(s, ev, p);
  }

  lemma BindSpares(e: Endpoint, j: nat)
    requires j < e.nextId
    ensures Spares(e, Bind(e), j)
  {
  }

  /** An event at the other end changes no socket at this one. */
  lemma FarStepSpares(s: System, ev: Event, j: nat)
    ensures Spares(s.b, Step(s, ev).b, j)
  {
  }

  // ------------------------------------------------------- closed halves

  function Backlog(e: Endpoint, h: nat): bytes {
    if h in e.sockets then Flat(e.sockets[h].queue) else []
  }

  /** What a socket's fd took and what it will still be offered. */
  function Received(e: Endpoint, h: nat): bytes {
    Log(e.written, h) + Backlog(e, h)
  }

  /** Half `p` is closed in both states and has said and handed over the same. */
  ghost predicate StaysShut(e: Endpoint, e': Endpoint, p: nat) {
    && !IsOpen(e, p) && !IsOpen(e', p)
    && Log(e'.handed, p) == Log(e.handed, p) && Farewells(e', p) == Farewells(e, p)
  }

  /** The events that cost a closing socket its backlog: a write that fails, and a
      stale read that sees the end of the fd. */
  predicate Loses(ev: Event, p: nat) {
    match ev
    case Writable(h, r) => h == p && r.failed
    case Readable(h, _, eof, _, _) => h == p && eof
    case _ => false
  }

  lemma SparesShut(e: Endpoint, e': Endpoint, p: nat)
    requires Spares(e, e', p) && !IsOpen(e, p)
    ensures StaysShut(e, e', p) && Received(e', p) == Received(e, p)
  {
  }

  lemma DestroyShut(e: Endpoint, p: nat)
    ensures p !in Destroy(e, p).sockets && SameLogs(e, Destroy(e, p), p)
  {
  }

  lemma ClosingClose(e: Endpoint, p: nat)
    requires p in e.sockets && e.sockets[p].closing && e.sockets[p].peer.NoPeer?
    ensures Close(e, p) == Destroy(e, p)
  {
  }

  /** What a write event does to a closing socket. */
  lemma ClosingWrites(e: Endpoint, p: nat, r: WriteResult)
    requires p in e.sockets && e.sockets[p].closing && e.sockets[p].peer.NoPeer?
    requires PossibleWrite(r, |Flat(e.sockets[p].queue)|)
    ensures var s := e.sockets[p];
            var s1 := s.(queue := AfterWriting(s.queue, r.taken));
            var e1 := Update(Written(e, p, Flat(s.queue)[..r.taken]), p, s1);
            WriteEvent(e, p, r) == if s1.queue != [] && !r.failed then e1 else Destroy(e1, p)
  {
    var s := e.sockets[p];
    var e1 := Update(Written(e, p, Flat(s.queue)[..r.taken]), p, s.(queue := AfterWriting(s.queue, r.taken)));
    ClosingClose(e1, p);
    hide Close, Destroy, Resume, AfterWriting, Flat;
  }

  lemma ClosingWritable(e: Endpoint, p: nat, r: WriteResult)
    requires p in e.sockets && e.sockets[p].closing && e.sockets[p].peer.NoPeer?
    requires PossibleWrite(r, |Flat(e.sockets[p].queue)|)
    ensures StaysShut(e, WriteEvent(e, p, r), p)
    ensures !r.failed ==> Received(WriteEvent(e, p, r), p) == Received(e, p)
    ensures Received(WriteEvent(e, p, r), p) <= Received(e, p)
  {
    hide WriteEvent, Destroy, AfterWriting, Flat;
    var s := e.sockets[p];
    var data, left := Flat(s.queue)[..r.taken], AfterWriting(s.queue, r.taken);
    var e1 := Update(Written(e, p, data), p, s.(queue := left));
    ClosingWrites(e, p, r);
    AfterWritingKeepsBytes(s.queue, r.taken);
    DestroyShut(e1, p);
    NothingFlat();
    assert Flat(s.queue) == data + Flat(left);
    assert Log(e.written, p) + Flat(s.queue) == (Log(e.written, p) + data) + Flat(left);
    assert Log(e.written, p) + data + [] == Log(e.written, p) + data;
  }

  lemma NothingFlat()
    ensures Flat([]) == []
  {
  }

  lemma ClosingReadable(e: Endpoint, p: nat, data: bytes, eof: bool, force: bool, r: WriteResult)
    requires p in e.sockets && e.sockets[p].closing && e.sockets[p].peer.NoPeer?
    requires PossibleWrite(r, |data|)
    ensures StaysShut(e, ReadEvent(e, p, data, eof, force, r), p)
    ensures !eof ==> ReadEvent(e, p, data, eof, force, r) == e
    ensures Received(ReadEvent(e, p, data, eof, force, r), p) <= Received(e, p)
  {
    ClosingClose(e, p);
    DestroyShut(e, p);
    hide Close, Destroy;
  }

  lemma ShutSelf(e: Endpoint, p: nat)
    requires !IsOpen(e, p)
    ensures StaysShut(e, e, p)
  {
  }

  lemma ClosedFacts(s: System, p: nat)
    requires Coherent(s.a) && p in s.a.sockets && !IsOpen(s.a, p)
    ensures s.a.sockets[p].closing && s.a.sockets[p].peer.NoPeer?
  {
    assert SocketCoherent(s.a, p);
  }

  lemma OwnShutStep(s: System, ev: Event, p: nat)
    requires Coherent(s.a) && !IsOpen(s.a, p) && About(s, ev, p)
    ensures StaysShut(s.a, Step(s, ev).a, p)
    ensures !Loses(ev, p) ==> Received(Step(s, ev).a, p) == Received(s.a, p)
    ensures Received(Step(s, ev).a, p) <= Received(s.a, p)
  {
    hide Coherent, WriteEvent, ReadEvent, Received, StaysShut;
    if p in s.a.sockets { ClosedFacts(s, p); }
    ShutSelf(s.a, p);
    match ev
    case Writable(_, r) => if CanWrite(s.a, p, r) { ClosingWritable(s.a, p, r); }
    case Readable(_, data, eof, force, r) =>
      if CanRead(s.a, p, data, r) { ClosingReadable(s.a, p, data, eof, force, r); }
    case Deliver(_, _) =>
  }

  /** A closed socket stays closed, says and hands over nothing more, and loses
      nothing unless its fd fails or is seen at its end. */
  lemma ClosedStep(s: System, ev: Event, p: nat)
    requires Coherent(s.a) && p < s.a.nextId && !IsOpen(s.a, p)
    ensures StaysShut(s.a, Step(s, ev).a, p)
    ensures !Loses(ev, p) ==> Received(Step(s, ev).a, p) == Received(s.a, p)
    ensures Received(Step(s, ev).a, p) <= Received(s.a, p)
  {
    hide Coherent, Step, StaysShut, Received, Loses, About, Spares;
    if About(s, ev, p) {
      OwnShutStep(s, ev, p);
    } else {
      if p in s.a.sockets { ClosedFacts(s, p); }
      StepSparesLone(s, ev, p);
      hide IsOpen;
      SparesShut(s.a, Step(s, ev).a, p);
    }
  }

  lemma ShutStep(s: System, ev: Event, p: nat, q: nat)
    requires Inv(s) && (p, q) in s.links && !IsOpen(s.a, p)
    ensures StaysShut(s.a, Step(s, ev).a, p)
    ensures !Loses(ev, p) ==> Received(Step(s, ev).a, p) == Received(s.a, p)
  {
    hide Inv, Coherent, Step, StaysShut, Received, Loses, IsOpen;
    LinkedLone(s, p, q);
    ClosedStep(s, ev, p);
  }

  lemma ShutStepAt(s: System, side: Side, ev: Event, p: nat, q: nat)
    requires Inv(s) && (p, q) in s.links && !IsOpen(s.a, p)
    ensures StaysShut(s.a, StepAt(s, side, ev).a, p)
    ensures side == AtB || !Loses(ev, p) ==> Received(StepAt(s, side, ev).a, p) == Received(s.a, p)
  {
    hide Inv, Step, StaysShut, Received, Loses, Spares, IsOpen;
    if side == AtA {
      ShutStep(s, ev, p, q);
    } else {
      FarStepSpares(Mirror(s), ev, p);
      SparesShut(s.a, StepAt(s, side, ev).a, p);
    }
  }
}
