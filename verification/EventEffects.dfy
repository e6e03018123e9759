/** What one event does to the socket that it is about: how its histories grow, what
    is sent, and when exactly the socket leaves the open list. */
module EventEffects {
  import opened Bytes
  import opened Packets
  import opened Sockets
  import opened Streams
  import opened Multiplexer
  import opened Runs
  import opened HangUps
  import opened LocalPairs

  // ------------------------------------------------- halves of a stream

  /** A bound socket before it closes, if it does, at the end of a read. */
  function AfterRead(e: Endpoint, p: nat, q: nat, data: bytes): Endpoint
    requires p in e.sockets
  {
    if data == [] then e else Update(Handed(Send(e, Wrte(p, q, data)), p, data), p, e.sockets[p].(wantRead := false))
  }

  lemma ReadIs(e: Endpoint, p: nat, q: nat, data: bytes, eof: bool, force: bool, r: WriteResult)
    requires IsOpen(e, p) && e.sockets[p].peer.Remote? && e.sockets[p].peer.id == q && PossibleWrite(r, |data|)
    ensures var e1 := AfterRead(e, p, q, data);
            ReadEvent(e, p, data, eof, force, r) == if eof then Close(e1, p) else e1
  {
    hide Close;
    ReadIsChange(e, p, q, data, r);
  }

  lemma AfterReadFacts(e: Endpoint, p: nat, q: nat, data: bytes)
    requires IsOpen(e, p)
    ensures var e1 := AfterRead(e, p, q, data);
            && e1.out == e.out + (if data == [] then [] else [Wrte(p, q, data)])
            && Log(e1.handed, p) == Log(e.handed, p) + data && Log(e1.written, p) == Log(e.written, p)
            && IsOpen(e1, p) && e1.sockets[p].peer == e.sockets[p].peer
            && e1.sockets[p].wantRead == (e.sockets[p].wantRead && data == [])
  {
    assert Log(e.handed, p) + [] == Log(e.handed, p) && e.out + [] == e.out;
  }

  lemma ReadsBound(s: System, p: nat, q: nat)
    requires Inv(s) && (p, q) in s.links && IsOpen(s.a, p) && s.a.sockets[p].wantRead
    ensures s.a.sockets[p].peer.Remote? && s.a.sockets[p].peer.id == q
  {
    LinkedFacts(s, p, q);
    hide Inv;
  }

  /** A read of a linked half: all that was read is handed over in one WRTE, and the
      half closes exactly at the end of the file, which sends one CLSE. */
  lemma ReadOfHalf(s: System, p: nat, q: nat, data: bytes, eof: bool, force: bool, r: WriteResult)
    requires Inv(s) && (p, q) in s.links && IsOpen(s.a, p) && CanRead(s.a, p, data, r)
    ensures var e' := Step(s, Readable(p, data, eof, force, r)).a;
            && e'.out == s.a.out + (if data == [] then [] else [Wrte(p, q, data)]) + (if eof then [Clse(0, q)] else [])
            && Log(e'.handed, p) == Log(s.a.handed, p) + data && Log(e'.written, p) == Log(s.a.written, p)
            && (IsOpen(e', p) <==> !eof)
            && (IsOpen(e', p) ==> e'.sockets[p].wantRead == (data == []))
  {
    hide Inv, ReadEvent, Close, AfterRead;
    ReadsBound(s, p, q);
    ReadIs(s.a, p, q, data, eof, force, r);
    AfterReadFacts(s.a, p, q, data);
    var e1 := AfterRead(s.a, p, q, data);
    RemoteCloses(e1, p, q);
    assert e1.out + [] == e1.out;
  }

  lemma RemoteCloses(e: Endpoint, p: nat, q: nat)
    requires IsOpen(e, p) && e.sockets[p].peer.Remote? && e.sockets[p].peer.id == q
    ensures var e' := Close(e, p);
            && e'.out == e.out + [Clse(0, q)] && !IsOpen(e', p)
            && Log(e'.handed, p) == Log(e.handed, p) && Log(e'.written, p) == Log(e.written, p)
  {
    DropPeerTouches(e, p);
    RetireSilent(DropPeer(e, p), p);
    RetireTouches(DropPeer(e, p), p);
    RetireFrame(DropPeer(e, p), p);
    hide Retire;
  }

  /** A write event of a linked half: the history grows by what the fd took, the half
      closes exactly if the fd failed, and an OKAY is sent exactly if all was written. */
  lemma WriteOfHalf(s: System, p: nat, q: nat, r: WriteResult)
    requires Inv(s) && (p, q) in s.links && IsOpen(s.a, p) && CanWrite(s.a, p, r)
    ensures var e', backlog := Step(s, Writable(p, r)).a, Flat(s.a.sockets[p].queue);
            && Log(e'.written, p) == Log(s.a.written, p) + backlog[..r.taken]
            && e'.out == s.a.out + (if r.failed then [Clse(0, q)] else if r.taken == |backlog| then [Okay(p, q)] else [])
            && (IsOpen(e', p) <==> !r.failed)
  {
    LinkedFacts(s, p, q);
    var t := s.a.sockets[p];
    AfterWritingKeepsBytes(t.queue, r.taken);
    assert t.queue != [] && t.peer.Remote? && t.peer.id == q;
    hide Inv, Stream, Coherent, Close, AfterWriting, Flat;
    var e1 := Update(Written(s.a, p, Flat(t.queue)[..r.taken]), p, t.(queue := AfterWriting(t.queue, r.taken)));
    assert s.a.out + [] == s.a.out;
    if r.failed { RemoteCloses(e1, p, q); }
  }

  /** What a packet for an open linked half finds. */
  lemma PacketFinds(s: System, p: nat, q: nat, r: WriteResult)
    requires Inv(s) && (p, q) in s.links && IsOpen(s.a, p)
    requires CanDeliver(s.b.out, r) && s.b.out[0].IsFor(p)
    ensures var m, t := s.b.out[0], s.a.sockets[p];
            && (t.peer.NoPeer? || (t.peer.Remote? && t.peer.id == q))
            && (m.Okay? ==> m.local == q)
            && (m.Wrte? ==> m.local == q && t.queue == [] && t.peer.Remote? && PossibleWrite(r, |m.data|))
  {
    var m := s.b.out[0];
    HeadAccounted(s);
    LinkedFacts(s, p, q);
    PopView(s.a, s.b, p);
    ViewOf(s.a, s.b, p);
    if m.Okay? || m.Wrte? {
      OneLink(s, p, q, m.local);
    }
    if m.Wrte? {
      WrteFindsRoom(p, View(s.a, s.b, p), q, View(s.b, s.a, q), m.data);
    }
    hide Inv, Stream, Coherent, View;
  }

  /** A WRTE for a bound socket with nothing queued. */
  lemma WrteForHalf(e: Endpoint, p: nat, q: nat, data: bytes, accept: bool, r: WriteResult)
    requires IsOpen(e, p) && e.sockets[p].queue == [] && PossibleWrite(r, |data|)
    requires e.sockets[p].peer.Remote? && e.sockets[p].peer.id == q
    ensures var e' := HandlePacket(e, Wrte(q, p, data), LINK, accept, r);
            && (IsOpen(e', p) <==> !r.failed)
            && Log(e'.written, p) == Log(e.written, p) + data[..r.taken]
            && e'.out == e.out + (if r.failed then [Clse(0, q)] else if r.taken == |data| then [Okay(p, q)] else [])
  {
    hide Close;
    var e1 := Written(e, p, data[..r.taken]);
    assert e.out + [] == e.out;
    if r.failed { RemoteCloses(e1, p, q); }
  }

  lemma ClseForHalf(e: Endpoint, p: nat, q: nat, m: Message, accept: bool, r: WriteResult)
    requires IsOpen(e, p) && m.Clse? && m.remote == p
    requires e.sockets[p].peer.NoPeer? || (e.sockets[p].peer.Remote? && e.sockets[p].peer.id == q)
    ensures var e' := HandlePacket(e, m, LINK, accept, r);
            !IsOpen(e', p) && Log(e'.written, p) == Log(e.written, p)
  {
    if e.sockets[p].peer.Remote? {
      RemoteCloses(e, p, q);
    } else {
      PlainCloses(e, p);
    }
    hide Close;
  }

  lemma OkayForHalf(e: Endpoint, p: nat, q: nat, accept: bool, r: WriteResult)
    requires IsOpen(e, p)
    requires e.sockets[p].peer.NoPeer? || (e.sockets[p].peer.Remote? && e.sockets[p].peer.id == q)
    ensures var e' := HandlePacket(e, Okay(q, p), LINK, accept, r);
            && IsOpen(e', p) && Log(e'.written, p) == Log(e.written, p)
            && e'.sockets[p].wantRead && e'.sockets[p].peer.Remote? && e'.sockets[p].peer.id == q
  {
    hide Close, Enqueue;
  }

  /** A packet for an open linked half: an OKAY makes it read, a CLSE closes it, and of a
      WRTE the fd takes what it takes, with an OKAY exactly if that is all. */
  lemma PacketForHalf(s: System, p: nat, q: nat, accept: bool, r: WriteResult)
    requires Inv(s) && (p, q) in s.links && IsOpen(s.a, p)
    requires CanDeliver(s.b.out, r) && s.b.out[0].IsFor(p)
    ensures var m, e' := s.b.out[0], Step(s, Deliver(accept, r)).a;
            && (IsOpen(e', p) <==> !m.Clse? && !(m.Wrte? && r.failed))
            && Log(e'.written, p) == Log(s.a.written, p) + (if m.Wrte? then m.data[..r.taken] else [])
            && (m.Okay? ==> e'.sockets[p].wantRead && e'.sockets[p].peer.Remote? && e'.sockets[p].peer.id == q)
            && (m.Wrte? ==> e'.out == s.a.out + (if r.failed then [Clse(0, q)]
                                                 else if r.taken == |m.data| then [Okay(p, q)] else []))
  {
    var m := s.b.out[0];
    PacketFinds(s, p, q, r);
    DeliverIs(s, accept, r);
    hide Inv, HandlePacket, Step, IsOpen;
    assert Log(s.a.written, p) + [] == Log(s.a.written, p);
    match m {
      case Okay(l, _) => OkayForHalf(s.a, p, q, accept, r);
      case Clse(_, _) => ClseForHalf(s.a, p, q, m, accept, r);
      case Wrte(l, _, data) => WrteForHalf(s.a, p, q, data, accept, r);
    }
  }

  lemma DeliverIs(s: System, accept: bool, r: WriteResult)
    requires CanDeliver(s.b.out, r)
    ensures Step(s, Deliver(accept, r)).a == HandlePacket(s.a, s.b.out[0], LINK, accept, r)
  {
    hide HandlePacket, WriteEvent, ReadEvent;
  }

  lemma PlainCloses(e: Endpoint, p: nat)
    requires IsOpen(e, p) && e.sockets[p].peer.NoPeer?
    ensures !IsOpen(Close(e, p), p) && Log(Close(e, p).written, p) == Log(e.written, p)
  {
  }

  lemma OneLink(s: System, p: nat, q: nat, l: nat)
    requires Inv(s) && (p, q) in s.links && (p, l) in s.links
    ensures l == q
  {
  }

  // ---------------------------------------------------------- new sockets

  ghost predicate OldOnesStay(e: Endpoint, e': Endpoint) {
    && (forall j :: j in e.sockets && j < e.nextId ==> j in e'.sockets && e'.sockets[j] == e.sockets[j])
    && e'.written == e.written && e'.handed == e.handed && e'.closing == e.closing
  }

  /** A client asks for its destination under the id of a new socket, which does not read
      before it is answered. */
  lemma NewClient(s: System, destination: bytes)
    ensures var n, e' := s.a.nextId, Step(s, ConnectOut(destination, false)).a;
            && e'.out == s.a.out + [Open(n, destination)] && e'.nextId == n + 1 && e'.open == s.a.open + [n]
            && IsOpen(e', n) && e'.sockets[n].peer.NoPeer? && !e'.sockets[n].wantRead && e'.sockets[n].queue == []
            && OldOnesStay(s.a, e')
  {
  }

  /** A client and a service of the host become each other's peers and read at once. */
  lemma NewPair(s: System)
    ensures var n, e' := s.a.nextId, Step(s, BindService).a;
            && e'.out == s.a.out && e'.nextId == n + 2 && e'.open == s.a.open + [n, n + 1]
            && OpenPair(e', n, n + 1) && e'.sockets[n].wantRead && e'.sockets[n + 1].wantRead
            && e'.sockets[n].queue == e'.sockets[n + 1].queue == []
            && OldOnesStay(s.a, e')
  {
    assert s.a.open + [s.a.nextId] + [s.a.nextId + 1] == s.a.open + [s.a.nextId, s.a.nextId + 1];
  }

  /** An OPEN that is accepted is answered by the OKAY of a new half, which reads at once;
      one that is refused by CLSE(0, id). */
  lemma NewService(s: System, accept: bool, r: WriteResult)
    requires s.b.out != [] && s.b.out[0].Open?
    ensures var n, l, s' := s.a.nextId, s.b.out[0].local, Step(s, Deliver(accept, r));
            && s'.b.out == s.b.out[1..]
            && (accept ==>
                  && s'.a.out == s.a.out + [Okay(n, l)] && s'.links == s.links + {(n, l)}
                  && IsOpen(s'.a, n) && s'.a.sockets[n].peer.Remote? && s'.a.sockets[n].peer.id == l
                  && s'.a.sockets[n].wantRead && s'.a.sockets[n].queue == [] && s'.a.nextId == n + 1
                  && OldOnesStay(s.a, s'.a))
            && (!accept ==> s'.a == s.a.(out := s.a.out + [Clse(0, l)]) && s'.links == s.links)
  {
  }

  /** A packet for a socket that is not open changes nothing here. */
  lemma StrayPacket(s: System, accept: bool, r: WriteResult)
    requires CanDeliver(s.b.out, r) && !s.b.out[0].Open? && !IsOpen(s.a, s.b.out[0].remote)
    ensures Step(s, Deliver(accept, r)) == s.(b := s.b.(out := s.b.out[1..]))
  {
  }

  // ---------------------------------------------------- sockets of a pair

  /** The other socket of a pair with nothing queued is offered the data. */
  lemma OfferedToPeer(e: Endpoint, h: nat, k: nat, data: bytes, r: WriteResult)
    requires OpenPair(e, h, k) && h != k && e.sockets[k].queue == [] && data != [] && PossibleWrite(r, |data|)
    ensures var (e1, ready) := PassOn(e, h, data, r);
            && (ready <==> !r.failed && r.taken == |data|)
            && Log(e1.handed, h) == Log(e.handed, h) + data
            && Log(e1.written, k) == Log(e.written, k) + data[..r.taken]
            && e1.out == e.out
            && (if r.failed then !IsOpen(e1, h) && (h in e1.sockets ==> e1.sockets[h].closing && e1.sockets[h].peer.NoPeer?)
                else OpenPair(e1, h, k))
  {
    hide Close;
    var e2 := Written(Handed(e, h, data), k, data[..r.taken]);
    assert OpenPair(e2, k, h);
    PairCloses(e2, k, h);
  }

  lemma StopReadingKeeps(e: Endpoint, h: nat, k: nat)
    ensures var e1 := StopReading(e, h);
            && e1.out == e.out && SameLogs(e, e1, h) && SameLogs(e, e1, k) && (h in e1.sockets <==> h in e.sockets)
            && (h in e.sockets ==> e1.sockets[h].closing == e.sockets[h].closing && e1.sockets[h].peer == e.sockets[h].peer)
            && (OpenPair(e, h, k) && h != k ==> OpenPair(e1, h, k))
  {
  }

  /** A read of a socket of a local pair: all that was read is handed over, the fd of the
      other takes what it takes, and the pair closes exactly at the end of the file, if
      that fd fails, or if the end is forced and it takes everything. */
  lemma ReadOfPair(e: Endpoint, h: nat, k: nat, data: bytes, eof: bool, force: bool, r: WriteResult)
    requires Coherent(e) && PairState(e, h, k) && IsOpen(e, h) && CanRead(e, h, data, r)
    ensures var e' := ReadEvent(e, h, data, eof, force, r);
            && Log(e'.handed, h) == Log(e.handed, h) + data
            && Log(e'.written, k) == Log(e.written, k) + data[..r.taken]
            && (IsOpen(e', h) <==> !(eof || (data != [] && (r.failed || (force && r.taken == |data|)))))
            && e'.out == e.out
  {
    assert e.sockets[k].queue == [];
    hide Coherent, Close, PassOn, StopReading, PairState, Flow, SameLogs;
    PairApart(e, h, k);
    if data == [] {
      assert data[..r.taken] == [];
      assert Log(e.handed, h) + [] == Log(e.handed, h) && Log(e.written, k) + [] == Log(e.written, k);
      PairCloses(e, h, k);
      SameLogsMeans(e, Close(e, h), h);
      SameLogsMeans(e, Close(e, h), k);
    } else {
      OfferedToPeer(e, h, k, data, r);
      var (e1, ready) := PassOn(e, h, data, r);
      StopReadingKeeps(e1, h, k);
      var e2 := if !ready then StopReading(e1, h) else e1;
      SameLogsMeans(e1, StopReading(e1, h), h);
      SameLogsMeans(e1, StopReading(e1, h), k);
      if h in e2.sockets {
        if r.failed { GoneCloses(e2, h, k); } else { PairCloses(e2, h, k); }
        SameLogsMeans(e2, Close(e2, h), h);
        SameLogsMeans(e2, Close(e2, h), k);
      }
    }
  }

  lemma SameLogsMeans(e: Endpoint, e': Endpoint, j: nat)
    requires SameLogs(e, e', j)
    ensures Log(e'.written, j) == Log(e.written, j) && Log(e'.handed, j) == Log(e.handed, j)
  {
  }

  lemma PairCloses(e: Endpoint, h: nat, k: nat)
    requires OpenPair(e, h, k) && h != k
    ensures var e' := Close(e, h);
            && !IsOpen(e', h) && !IsOpen(e', k) && e'.out == e.out
            && (h in e'.sockets ==> e'.sockets[h].peer.NoPeer?) && (k in e'.sockets ==> e'.sockets[k].peer.NoPeer?)
            && SameLogs(e, e', h) && SameLogs(e, e', k)
  {
    var e1 := Update(e, k, e.sockets[k].(peer := NoPeer));
    RetireSilent(e1, k);
    RetireFrame(e1, k);
    RetireSilent(Retire(e1, k), h);
    RetireFrame(Retire(e1, k), h);
    RetireDropsPeer(e1, k);
    RetireDropsPeer(Retire(e1, k), h);
    LogsRetired(e1, k);
    LogsRetired(Retire(e1, k), h);
    assert DropPeer(e, h) == Retire(e1, k);
    hide Retire;
  }

  lemma RetireDropsPeer(e: Endpoint, h: nat)
    requires IsOpen(e, h)
    ensures h in Retire(e, h).sockets ==> Retire(e, h).sockets[h].peer.NoPeer?
  {
  }

  lemma LogsRetired(e: Endpoint, h: nat)
    requires h in e.sockets
    ensures Retire(e, h).written == e.written && Retire(e, h).handed == e.handed && Retire(e, h).farewells == e.farewells
  {
  }

  /** Closing a socket that is closing already. */
  lemma GoneCloses(e: Endpoint, h: nat, k: nat)
    requires h in e.sockets && e.sockets[h].closing && e.sockets[h].peer.NoPeer?
    ensures var e' := Close(e, h);
            h !in e'.sockets && e'.out == e.out && SameLogs(e, e', h) && SameLogs(e, e', k)
  {
    hide Without;
  }

  /** A write event of a socket of a local pair. */
  lemma WriteOfPair(e: Endpoint, h: nat, k: nat, r: WriteResult)
    requires Coherent(e) && PairState(e, h, k) && IsOpen(e, h) && CanWrite(e, h, r)
    ensures var e', backlog := WriteEvent(e, h, r), Flat(e.sockets[h].queue);
            && Log(e'.written, h) == Log(e.written, h) + backlog[..r.taken]
            && (IsOpen(e', h) <==> !r.failed)
            && (r.taken == |backlog| ==> e'.sockets[k].wantRead && !e'.sockets[h].wantWrite)
            && e'.out == e.out
  {
    hide Coherent, Close, AfterWriting, Flat, Resume, SameLogs, PairState, Flow;
    HasBacklog(e, h);
    OpenPairIs(e, h, k);
    var s := e.sockets[h];
    AfterWritingKeepsBytes(s.queue, r.taken);
    var s1 := s.(queue := AfterWriting(s.queue, r.taken));
    var e1 := Update(Written(e, h, Flat(s.queue)[..r.taken]), h, s1);
    assert OpenPair(e1, h, k);
    if s1.queue != [] {
      PairCloses(e1, h, k);
      SameLogsMeans(e1, Close(e1, h), h);
    } else {
      PeerResumes(Update(e1, h, s1.(wantWrite := false)), h, k);
    }
  }

  lemma OpenPairIs(e: Endpoint, h: nat, k: nat)
    requires PairState(e, h, k) && IsOpen(e, h)
    ensures OpenPair(e, h, k) && h != k
  {
  }

  lemma PeerResumes(e: Endpoint, h: nat, k: nat)
    requires OpenPair(e, h, k) && h != k
    ensures var e' := Resume(e, h);
            && h in e'.sockets && k in e'.sockets
            && e'.sockets[k].wantRead && e'.sockets[h] == e.sockets[h] && e'.written == e.written && e'.out == e.out
  {
  }

  // ---------------------------------------------------------- transports

  /** A socket that is still there has its transport, and its peer unless it is closing
      or has just been bound over the link. */
  ghost predicate KeepsTransport(e: Endpoint, e': Endpoint, j: nat) {
    j in e'.sockets && j < e.nextId ==>
      && j in e.sockets && e'.sockets[j].transport == e.sockets[j].transport
      && (|| (e'.sockets[j].peer == e.sockets[j].peer && (e.sockets[j].closing ==> e'.sockets[j].closing))
          || e'.sockets[j].closing
          || (e.sockets[j].peer.NoPeer? && e'.sockets[j].peer.Remote? && e'.sockets[j].peer.transport == LINK))
  }

  /** In the middle of an operation: the transport and the peer are kept or the socket
      is closing. */
  ghost predicate KeepsPeer(e: Endpoint, e': Endpoint, j: nat) {
    j in e'.sockets ==>
      && j in e.sockets && e'.sockets[j].transport == e.sockets[j].transport
      && ((e'.sockets[j].peer == e.sockets[j].peer && (e.sockets[j].closing ==> e'.sockets[j].closing)) || e'.sockets[j].closing)
  }

  lemma KeepsPeerTrans(e: Endpoint, e1: Endpoint, e2: Endpoint, j: nat)
    requires KeepsPeer(e, e1, j) && KeepsPeer(e1, e2, j)
    ensures KeepsPeer(e, e2, j)
  {
  }

  lemma RetireKeeps(e: Endpoint, h: nat, j: nat)
    requires h in e.sockets
    ensures KeepsPeer(e, Retire(e, h), j)
    ensures j == h && j in Retire(e, h).sockets ==> Retire(e, h).sockets[j].closing
  {
    hide Without;
  }

  lemma CloseKeeps(e: Endpoint, h: nat, j: nat)
    requires h in e.sockets
    ensures KeepsPeer(e, Close(e, h), j)
  {
    hide Retire;
    match e.sockets[h].peer
    case Local(k) =>
      if k in e.sockets && k != h {
        var e1 := Update(e, k, e.sockets[k].(peer := NoPeer));
        RetireKeeps(e1, k, j);
        RetireFrame(e1, k);
        RetireKeeps(Retire(e1, k), h, j);
        assert KeepsPeer(e, Retire(e1, k), j);
      } else {
        RetireKeeps(e, h, j);
      }
    case _ => RetireKeeps(DropPeer(e, h), h, j);
  }

  lemma InPlaceKeeps(e: Endpoint, h: nat, t: Socket, data: bytes, m: Message, j: nat)
    requires h in e.sockets && t.peer == e.sockets[h].peer && t.closing == e.sockets[h].closing
    requires t.transport == e.sockets[h].transport
    ensures KeepsPeer(e, Update(e, h, t), j)
    ensures KeepsPeer(e, Written(e, h, data), j) && KeepsPeer(e, Handed(e, h, data), j) && KeepsPeer(e, Send(e, m), j)
  {
  }

  lemma EnqueueKeeps(e: Endpoint, h: nat, data: bytes, r: WriteResult, j: nat)
    requires h in e.sockets && PossibleWrite(r, |data|)
    ensures KeepsPeer(e, Enqueue(e, h, data, r).0, j)
  {
    CloseKeeps(Written(e, h, data[..r.taken]), h, j);
    hide Close;
  }

  lemma ResumeKeeps(e: Endpoint, h: nat, j: nat)
    requires h in e.sockets
    ensures KeepsPeer(e, Resume(e, h), j)
  {
  }

  lemma WriteEventKeeps(e: Endpoint, h: nat, r: WriteResult, j: nat)
    requires h in e.sockets && PossibleWrite(r, |Flat(e.sockets[h].queue)|)
    ensures KeepsPeer(e, WriteEvent(e, h, r), j)
  {
    hide Close, AfterWriting, Flat, Resume;
    var s := e.sockets[h];
    var s1 := s.(queue := AfterWriting(s.queue, r.taken));
    var e1 := Update(Written(e, h, Flat(s.queue)[..r.taken]), h, s1);
    CloseKeeps(e1, h, j);
    ResumeKeeps(Update(e1, h, s1.(wantWrite := false)), h, j);
  }

  lemma PassOnKeeps(e: Endpoint, h: nat, data: bytes, r: WriteResult, j: nat)
    requires h in e.sockets && PossibleWrite(r, |data|)
    ensures KeepsPeer(e, PassOn(e, h, data, r).0, j)
  {
    if e.sockets[h].peer.Local? && e.sockets[h].peer.handle in e.sockets {
      EnqueueKeeps(Handed(e, h, data), e.sockets[h].peer.handle, data, r, j);
    }
    hide Enqueue;
  }

  lemma ReadEventKeeps(e: Endpoint, h: nat, data: bytes, eof: bool, force: bool, r: WriteResult, j: nat)
    requires h in e.sockets && PossibleWrite(r, |data|)
    ensures KeepsPeer(e, ReadEvent(e, h, data, eof, force, r), j)
  {
    hide PassOn, Close;
    var passes := data != [] && e.sockets[h].peer != NoPeer;
    var (e1, ready) := if passes then PassOn(e, h, data, r) else (e, false);
    var e2 := if passes && !ready then StopReading(e1, h) else e1;
    PassOnKeeps(e, h, data, r, j);
    if h in e2.sockets { CloseKeeps(e2, h, j); }
  }

  lemma StepKeepsTransport(s: System, ev: Event, j: nat)
    requires Coherent(s.a)
    ensures KeepsTransport(s.a, Step(s, ev).a, j)
  {
    HandlesBelow(s.a);
    hide Coherent, Close, WriteEvent, ReadEvent, Enqueue;
    match ev
    case ConnectOut(destination, _) => CloseKeeps(Connect(s.a, destination, LINK), s.a.nextId, j);
    case BindService =>
    case Writable(h, r) => if CanWrite(s.a, h, r) { WriteEventKeeps(s.a, h, r, j); }
    case Readable(h, data, eof, force, r) =>
      if CanRead(s.a, h, data, r) { ReadEventKeeps(s.a, h, data, eof, force, r, j); }
    case Deliver(accept, r) =>
      if CanDeliver(s.b.out, r) {
        match s.b.out[0]
        case Clse(_, h) => if IsOpen(s.a, h) { CloseKeeps(s.a, h, j); }
        case Wrte(_, h, data) => if IsOpen(s.a, h) { EnqueueKeeps(s.a, h, data, r, j); }
        case _ =>
      }
  }

  /** New sockets: clients are bound to the link, accepted halves have a remote peer over
      it, and those of local pairs have no transport. */
  lemma NewSocketsOverLink(s: System, ev: Event, j: nat)
    requires Coherent(s.a) && j in Step(s, ev).a.sockets && j >= s.a.nextId
    ensures OverLinkAt(Step(s, ev).a, j)
  {
    HandlesBelow(s.a);
    match ev {
      case ConnectOut(destination, _) => CloseKeeps(Connect(s.a, destination, LINK), s.a.nextId, j);
      case BindService =>
      case Writable(h, r) => if CanWrite(s.a, h, r) { WriteEventKeeps(s.a, h, r, j); }
      case Readable(h, data, eof, force, r) =>
        if CanRead(s.a, h, data, r) { ReadEventKeeps(s.a, h, data, eof, force, r, j); }
      case Deliver(accept, r) =>
        if CanDeliver(s.b.out, r) {
          match s.b.out[0] {
            case Clse(_, h) => if IsOpen(s.a, h) { CloseKeeps(s.a, h, j); }
            case Wrte(_, h, data) => if IsOpen(s.a, h) { EnqueueKeeps(s.a, h, data, r, j); }
            case _ =>
          }
        }
    }
    hide Coherent, Close, WriteEvent, ReadEvent, Enqueue;
  }

  ghost predicate OverLinkAt(e: Endpoint, j: nat)
    requires j in e.sockets
  {
    !e.sockets[j].closing ==>
      match e.sockets[j].peer
      case Remote(_, transport) => transport == 1
      case Local(_) => e.sockets[j].transport == 0
      case NoPeer => e.sockets[j].transport == 1
  }

  /** In every run a remote peer is one over the link, the open sockets that wait for
      their first OKAY are bound to it, and those of local pairs are not. */
  ghost predicate OverLink(e: Endpoint) {
    forall j :: j in e.sockets ==> OverLinkAt(e, j)
  }

  lemma StepOverLink(s: System, ev: Event)
    requires Coherent(s.a) && OverLink(s.a)
    ensures OverLink(Step(s, ev).a)
  {
    hide Step, Coherent;
    var e' := Step(s, ev).a;
    forall j | j in e'.sockets
      ensures OverLinkAt(e', j)
    {
      if j < s.a.nextId {
        StepKeepsTransport(s, ev, j);
        assert OverLinkAt(s.a, j);
      } else {
        NewSocketsOverLink(s, ev, j);
      }
    }
  }

  lemma {:induction false} RunOverLink(events: seq<(Side, Event)>)
    ensures OverLink(Run(events).a)
  {
    if events == [] {
      assert Run(events) == Initial;
    } else {
      var n := |events| - 1;
      var s, side, ev := Run(events[..n]), events[n].0, events[n].1;
      RunInv(events[..n]);
      RunOverLink(events[..n]);
      assert Run(events) == StepAt(s, side, ev);
      InvCoherent(s);
      hide Run, Inv, OverLink, Step, Coherent;
      if side == AtA {
        StepOverLink(s, ev);
      } else {
        FarEndKept(s, ev);
        SameSocketsOverLink(s.a, StepAt(s, side, ev).a);
      }
    }
  }

  lemma SameSocketsOverLink(e: Endpoint, e': Endpoint)
    requires OverLink(e) && e'.sockets == e.sockets
    ensures OverLink(e')
  {
  }

  /** When the transport goes away after any run, close_all_sockets closes exactly the
      streams and the requests that wait, and no local pair. */
  lemma DisconnectClosesExactly(events: seq<(Side, Event)>)
    ensures var e := Run(events).a;
            && Coherent(e)
            && var e' := CloseAll(e, 1);
               forall h :: IsOpen(e', h) <==> IsOpen(e, h) && e.sockets[h].peer.Local?
  {
    RunInv(events);
    RunOverLink(events);
    var e := Run(events).a;
    InvCoherent(Run(events));
    hide Run, Inv;
    CloseAllClosesExactly(e, 1);
    hide CloseAll;
    forall h | IsOpen(e, h)
      ensures BoundTo(e, h, 1) <==> !e.sockets[h].peer.Local?
    {
      BoundExactly(e, h);
    }
    hide BoundTo, Coherent, OverLink;
  }

  lemma BoundExactly(e: Endpoint, h: nat)
    requires Coherent(e) && OverLink(e) && IsOpen(e, h)
    ensures BoundTo(e, h, 1) <==> !e.sockets[h].peer.Local?
  {
    assert OverLinkAt(e, h) && SocketCoherent(e, h);
    if e.sockets[h].peer.Local? {
      assert OverLinkAt(e, e.sockets[h].peer.handle);
    }
  }
}
