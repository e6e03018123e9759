/** The local and remote sockets of one endpoint, as values.

    A local socket is named by the id it received when it was created.  A
    socket on the closing list keeps that name here although its id field has
    been cleared: nothing finds it by id any more. */
module Sockets {
  import opened Bytes
  import opened Lists
  import opened Packets

  const MAX_PAYLOAD := 4096

  datatype Peer =
    | NoPeer
    | Remote(id: nat, transport: nat)  // a remote socket for the far side's socket `id`
    | Local(handle: nat)               // another local socket

  datatype Socket = Socket(
    peer: Peer,
    queue: seq<bytes>,       // pkt_first .. pkt_last, what is left of each packet
    wantRead: bool,          // FDE_READ interest
    wantWrite: bool,         // FDE_WRITE interest
    closing: bool,
    transport: nat)          // 0 when the socket is bound to none

  /** The state of one endpoint.  `written`, `handed` and `farewells` are
      histories that outlive the sockets: the bytes each socket's fd took, the
      bytes each socket handed to its peer, and how many CLSE packets its
      remote sockets sent.  `fault` records a call through a null peer. */
  datatype Endpoint = Endpoint(
    sockets: map<nat, Socket>,
    open: seq<nat>,          // local_socket_list
    closing: seq<nat>,       // local_socket_closing_list
    nextId: nat,
    out: seq<Message>,       // the packets passed to send_packet and not yet handled
    written: map<nat, bytes>,
    handed: map<nat, bytes>,
    farewells: map<nat, nat>,
    fault: bool)

  const EmptyEndpoint := Endpoint(map[], [], [], 1, [], map[], map[], map[], false)

  /** What the kernel made of the writes to one fd: it took `taken` bytes and
      then stopped, because all were taken, it would block, or it failed. */
  datatype WriteResult = WriteResult(taken: nat, failed: bool)

  predicate PossibleWrite(r: WriteResult, offered: nat) {
    r.taken <= offered && (r.failed ==> r.taken < offered)
  }

  function Log(m: map<nat, bytes>, h: nat): bytes {
    if h in m then m[h] else []
  }

  function Farewells(e: Endpoint, h: nat): nat {
    if h in e.farewells then e.farewells[h] else 0
  }

  predicate IsOpen(e: Endpoint, h: nat) {
    h in e.sockets && !e.sockets[h].closing
  }

  function Send(e: Endpoint, m: Message): Endpoint {
    e.(out := e.out + [m])
  }

  function Update(e: Endpoint, h: nat, s: Socket): Endpoint {
    e.(sockets := e.sockets[h := s])
  }

  function Written(e: Endpoint, h: nat, data: bytes): Endpoint {
    e.(written := e.written[h := Log(e.written, h) + data])
  }

  function Handed(e: Endpoint, h: nat, data: bytes): Endpoint {
    e.(handed := e.handed[h := Log(e.handed, h) + data])
  }

  /** A list with one socket unlinked from it. */
  function Without(s: seq<nat>, h: nat): (r: seq<nat>)
    ensures forall x :: x in r <==> x in s && x != h
    ensures Distinct(s) ==> Distinct(r)
    ensures |r| <= |s|
    ensures h in s ==> |r| < |s|
  {
    if s == [] then []
    else
      assert s == [s[0]] + s[1..];
      assert Distinct(s) ==> Distinct(s[1..]) && s[0] !in s[1..];
      if s[0] == h then Without(s[1..], h) else [s[0]] + Without(s[1..], h)
  }

  // ------------------------------------------------------------- closing

  function Destroy(e: Endpoint, h: nat): Endpoint {
    e.(sockets := e.sockets - {h}, open := Without(e.open, h), closing := Without(e.closing, h))
  }

  /** The second half of local_socket_close_locked, once the peer is gone. */
  function Retire(e: Endpoint, h: nat): Endpoint
    requires h in e.sockets
  {
    var s := e.sockets[h];
    if s.closing || s.queue == [] then Destroy(e, h)
    else
      Update(e, h, s.(closing := true, wantRead := false, peer := NoPeer))
        .(open := Without(e.open, h), closing := e.closing + [h])
  }

  /** The first half of local_socket_close_locked: the peer is told, and a
      local peer is closed in turn. */
  function DropPeer(e: Endpoint, h: nat): (r: Endpoint)
    requires h in e.sockets
  {
    match e.sockets[h].peer
    case NoPeer => e
    case Remote(id, _) =>
      Send(e, Clse(0, id)).(farewells := e.farewells[h := Farewells(e, h) + 1])
    case Local(k) =>
      if k in e.sockets && k != h then
        Retire(Update(e, k, e.sockets[k].(peer := NoPeer)), k)
      else e
  }

  function Close(e: Endpoint, h: nat): Endpoint
    requires h in e.sockets
  {
    Retire(DropPeer(e, h), h)
  }

  // ------------------------------------------------------- data to an fd

  /** local_socket_enqueue.  The second result is true if the socket can take
      more data at once. */
  function Enqueue(e: Endpoint, h: nat, data: bytes, r: WriteResult): (Endpoint, bool)
    requires h in e.sockets
    requires PossibleWrite(r, |data|)
  {
    var s := e.sockets[h];
    if s.queue != [] then
      (Update(e, h, s.(queue := s.queue + [data], wantWrite := true)), false)
    else
      var e1 := Written(e, h, data[..r.taken]);
      if r.failed then (Close(e1, h), false)
      else if r.taken == |data| then (e1, true)
      else (Update(e1, h, s.(queue := [data[r.taken..]], wantWrite := true)), false)
  }

  /** The ready call of a peer that has just emptied its queue. */
  function Resume(e: Endpoint, h: nat): Endpoint
    requires h in e.sockets
  {
    match e.sockets[h].peer
    case NoPeer => e.(fault := true)
    case Remote(id, _) => Send(e, Okay(h, id))
    case Local(k) =>
      if k in e.sockets then Update(e, k, e.sockets[k].(wantRead := true)) else e
  }

  /** The FDE_WRITE part of local_socket_event_func. */
  function WriteEvent(e: Endpoint, h: nat, r: WriteResult): Endpoint
    requires h in e.sockets
    requires PossibleWrite(r, |Flat(e.sockets[h].queue)|)
  {
    var s := e.sockets[h];
    var s1 := s.(queue := AfterWriting(s.queue, r.taken));
    var e1 := Update(Written(e, h, Flat(s.queue)[..r.taken]), h, s1);
    if s1.queue != [] then
      if r.failed then Close(e1, h) else e1
    else if s.closing then Close(e1, h)
    else Resume(Update(e1, h, s1.(wantWrite := false)), h)
  }

  // ----------------------------------------------------- data from an fd

  /** Hands data that was read to the peer; true if the peer takes more. */
  function PassOn(e: Endpoint, h: nat, data: bytes, r: WriteResult): (Endpoint, bool)
    requires h in e.sockets
    requires PossibleWrite(r, |data|)
  {
    var s := e.sockets[h];
    match s.peer
    case NoPeer => (e, false)
    case Remote(id, _) => (Handed(Send(e, Wrte(h, id, data)), h, data), false)
    case Local(k) =>
      if k in e.sockets then Enqueue(Handed(e, h, data), k, data, r) else (e, false)
  }

  function StopReading(e: Endpoint, h: nat): Endpoint {
    if h in e.sockets then Update(e, h, e.sockets[h].(wantRead := false)) else e
  }

  /** The FDE_READ part of local_socket_event_func: `data` was read, `eof` says
      whether the fd is at its end, `force` is the fde's force_eof flag, and
      `r` is what became of the data if the peer is a local socket. */
  function ReadEvent(e: Endpoint, h: nat, data: bytes, eof: bool, force: bool, r: WriteResult): Endpoint
    requires h in e.sockets
    requires PossibleWrite(r, |data|)
  {
    var passes := data != [] && e.sockets[h].peer != NoPeer;
    var (e1, ready) := if passes then PassOn(e, h, data, r) else (e, false);
    var e2 := if passes && !ready then StopReading(e1, h) else e1;
    if (eof || (force && ready)) && h in e2.sockets then Close(e2, h) else e2
  }

  // ------------------------------------------------------------ packets

  /** A new local socket at the tail of the open list. */
  function Install(e: Endpoint, peer: Peer, wantRead: bool, transport: nat): Endpoint {
    e.(sockets := e.sockets[e.nextId := Socket(peer, [], wantRead, false, false, transport)],
       open := e.open + [e.nextId],
       nextId := e.nextId + 1)
  }

  /** connect_to_remote on a new local socket. */
  function Connect(e: Endpoint, destination: bytes, transport: nat): Endpoint {
    Send(Install(e, NoPeer, false, transport), Open(e.nextId, destination))
  }

  /** A client socket bound to a service socket of the same endpoint. */
  function Bind(e: Endpoint): Endpoint {
    Install(Install(e, Local(e.nextId + 1), true, 0), Local(e.nextId), true, 0)
  }

  /** handle_packet for a packet from `transport`.  `accept` says whether the
      service named by an OPEN exists; `r` is what the fd made of a WRTE. */
  function HandlePacket(e: Endpoint, m: Message, transport: nat, accept: bool, r: WriteResult): Endpoint
    requires m.Wrte? ==> PossibleWrite(r, |m.data|)
  {
    match m
    case Open(local, _) =>
      if accept then Send(Install(e, Remote(local, transport), true, 0), Okay(e.nextId, local))
      else Send(e, Clse(0, local))
    case Okay(local, remote) =>
      if IsOpen(e, remote) then
        var s := e.sockets[remote];
        Update(e, remote, s.(wantRead := true,
                             peer := if s.peer.NoPeer? then Remote(local, transport) else s.peer))
      else e
    case Clse(_, remote) =>
      if IsOpen(e, remote) then Close(e, remote) else e
    case Wrte(local, remote, data) =>
      if IsOpen(e, remote) then
        var (e1, ready) := Enqueue(e, remote, data, r);
        if ready then Send(e1, Okay(remote, local)) else e1
      else e
  }

  // ----------------------------------------------------- heap invariant

  /** Every live socket is on exactly one list, ids are distinct, nonzero and
      below the next id, local peers are mutual and live, write interest means
      a backlog, and a closing socket has no peer and a backlog. */
  ghost predicate Coherent(e: Endpoint) {
    && Distinct(e.open)
    && Distinct(e.closing)
    && e.nextId > 0
    && (forall h :: h in e.open <==> IsOpen(e, h))
    && (forall h :: h in e.closing <==> h in e.sockets && !IsOpen(e, h))
    && (forall h :: h in e.sockets ==> SocketCoherent(e, h))
    && (forall h :: h >= e.nextId ==> h !in e.written && h !in e.handed && h !in e.farewells)
  }

  ghost predicate SocketCoherent(e: Endpoint, h: nat)
    requires h in e.sockets
  {
    var s := e.sockets[h];
    && 0 < h < e.nextId
    && (s.wantWrite <==> s.queue != [])
    && (s.closing ==> s.peer == NoPeer && s.queue != [] && !s.wantRead)
    && (s.peer.Local? ==>
          var k := s.peer.handle;
          k != h && IsOpen(e, k) && e.sockets[k].peer == Local(h))
  }

  /** Coherence with the sockets of `loose` exempt: they are being closed, and
      nothing else refers to them. */
  ghost predicate CoherentApart(e: Endpoint, loose: set<nat>) {
    && Distinct(e.open)
    && Distinct(e.closing)
    && e.nextId > 0
    && (forall h :: h in e.open <==> IsOpen(e, h))
    && (forall h :: h in e.closing <==> h in e.sockets && !IsOpen(e, h))
    && (forall h :: h in e.sockets && h !in loose ==> SocketCoherent(e, h))
    && (forall h :: h in e.sockets ==> 0 < h < e.nextId)
    && (forall h :: h in e.sockets && h !in loose && e.sockets[h].peer.Local? ==>
          e.sockets[h].peer.handle !in loose)
    && (forall h :: h >= e.nextId ==> h !in e.written && h !in e.handed && h !in e.farewells)
  }

  lemma RetireCoherent(e: Endpoint, loose: set<nat>, h: nat)
    requires CoherentApart(e, loose) && h in e.sockets && h in loose
    requires e.sockets[h].queue != [] ==> e.sockets[h].wantWrite
    ensures CoherentApart(Retire(e, h), loose - {h})
    ensures forall k :: k != h ==> (k in Retire(e, h).sockets <==> k in e.sockets)
    ensures forall k :: k != h && k in e.sockets ==> Retire(e, h).sockets[k] == e.sockets[k]
    ensures !IsOpen(Retire(e, h), h)
  {
    var r := Retire(e, h);
    forall k | k in r.sockets && k !in loose - {h}
      ensures SocketCoherent(r, k)
    {
      if k != h && e.sockets[k].peer.Local? {
        assert IsOpen(e, e.sockets[k].peer.handle);
      }
    }
  }

  lemma DetachCoherent(e: Endpoint, h: nat, k: nat)
    requires Coherent(e) && h in e.sockets && e.sockets[h].peer == Local(k)
    ensures k in e.sockets && k != h
    ensures CoherentApart(Update(e, k, e.sockets[k].(peer := NoPeer)), {h, k})
  {
    assert SocketCoherent(e, h);
    var e1 := Update(e, k, e.sockets[k].(peer := NoPeer));
    forall j | j in e1.sockets && j !in {h, k}
      ensures SocketCoherent(e1, j)
      ensures e1.sockets[j].peer.Local? ==> e1.sockets[j].peer.handle !in {h, k}
    {
      assert SocketCoherent(e, j);
    }
  }

  lemma DropLocalCoherent(e: Endpoint, h: nat, k: nat)
    requires Coherent(e) && h in e.sockets && e.sockets[h].peer == Local(k)
    ensures h in DropPeer(e, h).sockets && DropPeer(e, h).sockets[h] == e.sockets[h]
    ensures CoherentApart(DropPeer(e, h), {h})
  {
    DetachCoherent(e, h, k);
    assert SocketCoherent(e, h) && SocketCoherent(e, k);
    var e1 := Update(e, k, e.sockets[k].(peer := NoPeer));
    RetireCoherent(e1, {h, k}, k);
    assert {h, k} - {k} == {h};
    assert DropPeer(e, h) == Retire(e1, k);
  }

  lemma DropRemoteCoherent(e: Endpoint, h: nat)
    requires Coherent(e) && h in e.sockets && !e.sockets[h].peer.Local?
    ensures h in DropPeer(e, h).sockets && DropPeer(e, h).sockets[h] == e.sockets[h]
    ensures CoherentApart(DropPeer(e, h), {h})
  {
    var r := DropPeer(e, h);
    assert r.sockets == e.sockets && r.open == e.open && r.closing == e.closing;
    assert SocketCoherent(e, h);
    forall j | j in r.sockets && j != h
      ensures SocketCoherent(r, j)
      ensures r.sockets[j].peer.Local? ==> r.sockets[j].peer.handle != h
    {
      assert SocketCoherent(e, j);
    }
  }

  /** local_socket_close keeps the heap coherent and takes the socket off the
      open list. */
  lemma CloseCoherent(e: Endpoint, h: nat)
    requires Coherent(e) && h in e.sockets
    ensures Coherent(Close(e, h)) && !IsOpen(Close(e, h), h)
  {
    assert SocketCoherent(e, h);
    if e.sockets[h].peer.Local? {
      DropLocalCoherent(e, h, e.sockets[h].peer.handle);
    } else {
      DropRemoteCoherent(e, h);
    }
    RetireCoherent(DropPeer(e, h), {h}, h);
    assert {h} - {h} == {};
  }

  /** Replacing a socket by one with the same place in the heap. */
  lemma UpdateCoherent(e: Endpoint, h: nat, s: Socket)
    requires Coherent(e) && h in e.sockets
    requires s.closing == e.sockets[h].closing
    requires s.wantWrite <==> s.queue != []
    requires s.closing ==> s.queue != [] && !s.wantRead
    requires s.peer == e.sockets[h].peer
          || (e.sockets[h].peer.NoPeer? && s.peer.Remote? && !s.closing)
    ensures Coherent(Update(e, h, s))
  {
    var r := Update(e, h, s);
    forall j | j in r.sockets
      ensures SocketCoherent(r, j)
    {
      assert SocketCoherent(e, j) && SocketCoherent(e, h);
    }
  }

  /** Sending a packet or extending a history leaves the heap alone. */
  lemma LogCoherent(e: Endpoint, h: nat, data: bytes, m: Message)
    requires Coherent(e) && h in e.sockets
    ensures Coherent(Send(e, m)) && Coherent(Written(e, h, data)) && Coherent(Handed(e, h, data))
  {
    assert SocketCoherent(e, h);
    assert Coherent(Send(e, m)) by { SameHeapCoherent(e, Send(e, m)); }
    assert Coherent(Written(e, h, data)) by { SameHeapCoherent(e, Written(e, h, data)); }
    assert Coherent(Handed(e, h, data)) by { SameHeapCoherent(e, Handed(e, h, data)); }
  }

  lemma SameHeapCoherent(e: Endpoint, r: Endpoint)
    requires Coherent(e)
    requires r.sockets == e.sockets && r.open == e.open && r.closing == e.closing && r.nextId == e.nextId
    requires forall h :: h >= e.nextId ==> h !in r.written && h !in r.handed && h !in r.farewells
    ensures Coherent(r)
  {
    forall j | j in r.sockets
      ensures SocketCoherent(r, j)
    {
      assert SocketCoherent(e, j);
    }
  }

  lemma EnqueueCoherent(e: Endpoint, h: nat, data: bytes, r: WriteResult)
    requires Coherent(e) && IsOpen(e, h) && PossibleWrite(r, |data|)
    ensures Coherent(Enqueue(e, h, data, r).0)
    ensures Enqueue(e, h, data, r).1 ==> Enqueue(e, h, data, r).0 == Written(e, h, data)
  {
    var s := e.sockets[h];
    if s.queue != [] {
      UpdateCoherent(e, h, s.(queue := s.queue + [data], wantWrite := true));
    } else {
      var e1 := Written(e, h, data[..r.taken]);
      LogCoherent(e, h, data[..r.taken], Clse(0, 0));
      if r.failed {
        CloseCoherent(e1, h);
      } else if r.taken == |data| {
        assert data[..r.taken] == data;
      } else {
        UpdateCoherent(e1, h, s.(queue := [data[r.taken..]], wantWrite := true));
      }
    }
  }

  lemma DestroyCoherent(e: Endpoint, h: nat)
    requires Coherent(e) && h in e.sockets && e.sockets[h].closing
    ensures Coherent(Destroy(e, h))
  {
    var r := Destroy(e, h);
    assert SocketCoherent(e, h);
    forall j | j in r.sockets
      ensures SocketCoherent(r, j)
    {
      assert SocketCoherent(e, j);
    }
  }

  /** A closing socket whose backlog has been written is destroyed. */
  lemma LastWriteDestroys(e: Endpoint, h: nat, s: Socket)
    requires h in e.sockets && s.closing && s.peer.NoPeer?
    ensures Close(Update(e, h, s), h) == Destroy(e, h)
  {
    assert Update(e, h, s).sockets - {h} == e.sockets - {h};
  }

  lemma WriteEventCoherent(e: Endpoint, h: nat, r: WriteResult)
    requires Coherent(e) && h in e.sockets
    requires PossibleWrite(r, |Flat(e.sockets[h].queue)|)
    requires e.sockets[h].wantWrite
    ensures Coherent(WriteEvent(e, h, r))
  {
    var s := e.sockets[h];
    var s1 := s.(queue := AfterWriting(s.queue, r.taken));
    var e0 := Written(e, h, Flat(s.queue)[..r.taken]);
    assert Coherent(e0) by { LogCoherent(e, h, Flat(s.queue)[..r.taken], Clse(0, 0)); }
    assert (s.closing ==> s.peer.NoPeer? && !s.wantRead) by { assert SocketCoherent(e, h); }
    if s1.queue != [] {
      BacklogLeftCoherent(e0, h, s1);
    } else if s.closing {
      LastWriteDestroys(e0, h, s1);
      DestroyCoherent(e0, h);
    } else {
      BacklogGoneCoherent(e0, h, s1);
    }
  }

  lemma BacklogLeftCoherent(e: Endpoint, h: nat, s: Socket)
    requires Coherent(e) && h in e.sockets
    requires s.queue != [] && s == e.sockets[h].(queue := s.queue) && s.wantWrite
    requires s.closing ==> !s.wantRead
    ensures Coherent(Update(e, h, s)) && Coherent(Close(Update(e, h, s), h))
  {
    UpdateCoherent(e, h, s);
    CloseCoherent(Update(e, h, s), h);
  }

  lemma BacklogGoneCoherent(e: Endpoint, h: nat, s: Socket)
    requires Coherent(e) && h in e.sockets
    requires s.queue == [] && s == e.sockets[h].(queue := []) && !s.closing
    ensures Coherent(Resume(Update(Update(e, h, s), h, s.(wantWrite := false)), h))
  {
    var s2 := s.(wantWrite := false);
    assert Update(Update(e, h, s), h, s2) == Update(e, h, s2);
    UpdateCoherent(e, h, s2);
    ResumeCoherent(Update(e, h, s2), h);
  }

  lemma ResumeCoherent(e: Endpoint, h: nat)
    requires Coherent(e) && IsOpen(e, h)
    ensures Coherent(Resume(e, h))
  {
    assert SocketCoherent(e, h);
    match e.sockets[h].peer
    case NoPeer => SameHeapCoherent(e, Resume(e, h));
    case Remote(id, _) => LogCoherent(e, h, [], Okay(h, id));
    case Local(k) =>
      assert SocketCoherent(e, k);
      UpdateCoherent(e, k, e.sockets[k].(wantRead := true));
  }

  lemma ReadEventCoherent(e: Endpoint, h: nat, data: bytes, eof: bool, force: bool, r: WriteResult)
    requires Coherent(e) && h in e.sockets && PossibleWrite(r, |data|)
    ensures Coherent(ReadEvent(e, h, data, eof, force, r))
  {
    assert SocketCoherent(e, h);
    var passes := data != [] && e.sockets[h].peer != NoPeer;
    var (e1, ready) := if passes then PassOn(e, h, data, r) else (e, false);
    if passes {
      PassOnCoherent(e, h, data, r);
    }
    var e2 := if passes && !ready then StopReading(e1, h) else e1;
    StopReadingCoherent(e1, h);
    hide Coherent, Close, StopReading, PassOn;
    if h in e2.sockets {
      CloseCoherent(e2, h);
    }
  }

  lemma StopReadingCoherent(e: Endpoint, h: nat)
    requires Coherent(e)
    ensures Coherent(StopReading(e, h))
  {
    if h in e.sockets {
      assert SocketCoherent(e, h);
      UpdateCoherent(e, h, e.sockets[h].(wantRead := false));
    }
  }

  lemma PassOnCoherent(e: Endpoint, h: nat, data: bytes, r: WriteResult)
    requires Coherent(e) && h in e.sockets && PossibleWrite(r, |data|)
    ensures Coherent(PassOn(e, h, data, r).0)
  {
    assert SocketCoherent(e, h);
    match e.sockets[h].peer
    case NoPeer =>
    case Remote(id, _) =>
      LogCoherent(e, h, [], Wrte(h, id, data));
      LogCoherent(Send(e, Wrte(h, id, data)), h, data, Clse(0, 0));
    case Local(k) =>
      LogCoherent(e, h, data, Clse(0, 0));
      EnqueueCoherent(Handed(e, h, data), k, data, r);
  }

  lemma HandlesBelow(e: Endpoint)
    requires Coherent(e)
    ensures forall j :: j in e.sockets ==> 0 < j < e.nextId
    ensures forall j :: j in e.open || j in e.closing ==> j < e.nextId
  {
    forall j | j in e.sockets
      ensures 0 < j < e.nextId
    {
      assert SocketCoherent(e, j);
    }
  }

  lemma InstallCoherent(e: Endpoint, peer: Peer, wantRead: bool, transport: nat)
    requires Coherent(e) && !peer.Local?
    ensures Coherent(Install(e, peer, wantRead, transport))
  {
    var r := Install(e, peer, wantRead, transport);
    HandlesBelow(e);
    DistinctAppend(e.open, e.nextId);
    forall j | j in r.sockets
      ensures SocketCoherent(r, j)
    {
      assert j in e.sockets ==> SocketCoherent(e, j);
    }
  }

  lemma BindCoherent(e: Endpoint)
    requires Coherent(e)
    ensures Coherent(Bind(e))
  {
    var r := Bind(e);
    HandlesBelow(e);
    DistinctAppend(e.open, e.nextId);
    DistinctAppend(e.open + [e.nextId], e.nextId + 1);
    forall j | j in r.sockets
      ensures SocketCoherent(r, j)
    {
      assert j in e.sockets ==> SocketCoherent(e, j);
    }
  }

  lemma ConnectCoherent(e: Endpoint, destination: bytes, transport: nat)
    requires Coherent(e)
    ensures Coherent(Connect(e, destination, transport))
  {
    InstallCoherent(e, NoPeer, false, transport);
    SameHeapCoherent(Install(e, NoPeer, false, transport), Connect(e, destination, transport));
  }

  lemma HandlePacketCoherent(e: Endpoint, m: Message, transport: nat, accept: bool, r: WriteResult)
    requires Coherent(e)
    requires m.Wrte? ==> PossibleWrite(r, |m.data|)
    ensures Coherent(HandlePacket(e, m, transport, accept, r))
  {
    match m
    case Open(local, _) =>
      if accept {
        var e1 := Install(e, Remote(local, transport), true, 0);
        InstallCoherent(e, Remote(local, transport), true, 0);
        SameHeapCoherent(e1, Send(e1, Okay(e.nextId, local)));
      } else {
        SameHeapCoherent(e, Send(e, Clse(0, local)));
      }
    case Okay(local, remote) =>
      if IsOpen(e, remote) {
        var s := e.sockets[remote];
        assert SocketCoherent(e, remote);
        UpdateCoherent(e, remote,
                       s.(wantRead := true,
                          peer := if s.peer.NoPeer? then Remote(local, transport) else s.peer));
      }
    case Clse(_, remote) =>
      if IsOpen(e, remote) { CloseCoherent(e, remote); }
    case Wrte(local, remote, data) =>
      if IsOpen(e, remote) {
        EnqueueCoherent(e, remote, data, r);
        var (e1, ready) := Enqueue(e, remote, data, r);
        if ready { SameHeapCoherent(e1, Send(e1, Okay(remote, local))); }
      }
  }

  // ---------------------------------------------------- close_all_sockets

  /** The test of close_all_sockets: the socket or its peer belongs to `t`. */
  predicate BoundTo(e: Endpoint, h: nat, t: nat) {
    h in e.sockets &&
    var s := e.sockets[h];
    || s.transport == t
    || match s.peer
       case NoPeer => false
       case Remote(_, transport) => transport == t
       case Local(k) => k in e.sockets && e.sockets[k].transport == t
  }

  /** The first socket of a list that belongs to `t`, or the list's length. */
  function FirstBound(e: Endpoint, list: seq<nat>, t: nat): (i: nat)
    ensures i <= |list|
    ensures i < |list| ==> BoundTo(e, list[i], t)
    ensures forall j :: 0 <= j < i ==> !BoundTo(e, list[j], t)
  {
    if list == [] || BoundTo(e, list[0], t) then 0
    else 1 + FirstBound(e, list[1..], t)
  }

  ghost function CloseAll(e: Endpoint, t: nat): Endpoint
    requires Coherent(e)
    decreases |e.open|
  {
    var i := FirstBound(e, e.open, t);
    if i == |e.open| then e
    else
      CloseCoherent(e, e.open[i]);
      CloseFrame(e, e.open[i]);
      CloseAll(Close(e, e.open[i]), t)
  }

  /** Closing a socket shortens the open list and touches no socket but this
      one and its local peer, which is off the list too. */
  lemma CloseFrame(e: Endpoint, h: nat)
    requires Coherent(e) && IsOpen(e, h)
    ensures |Close(e, h).open| < |e.open|
    ensures forall j :: j != h && e.sockets[h].peer != Local(j) ==>
              (j in Close(e, h).sockets <==> j in e.sockets)
    ensures forall j :: j in e.sockets && j != h && e.sockets[h].peer != Local(j) ==>
              Close(e, h).sockets[j] == e.sockets[j]
    ensures forall j :: e.sockets[h].peer == Local(j) ==> !IsOpen(Close(e, h), j)
    ensures !IsOpen(Close(e, h), h)
  {
    assert h in e.open;
    if e.sockets[h].peer.Local? {
      CloseLocalFrame(e, h, e.sockets[h].peer.handle);
    } else {
      RetireFrame(DropPeer(e, h), h);
    }
  }

  lemma CloseLocalFrame(e: Endpoint, h: nat, k: nat)
    requires Coherent(e) && IsOpen(e, h) && e.sockets[h].peer == Local(k)
    ensures Close(e, h).open == Without(Without(e.open, k), h)
    ensures forall j :: j != h && j != k ==> (j in Close(e, h).sockets <==> j in e.sockets)
    ensures forall j :: j in e.sockets && j != h && j != k ==> Close(e, h).sockets[j] == e.sockets[j]
    ensures !IsOpen(Close(e, h), h) && !IsOpen(Close(e, h), k)
  {
    assert SocketCoherent(e, h);
    var e1 := Update(e, k, e.sockets[k].(peer := NoPeer));
    var e2 := Retire(e1, k);
    assert DropPeer(e, h) == e2;
    RetireFrame(e1, k);
    RetireFrame(e2, h);
  }

  lemma RetireFrame(e: Endpoint, h: nat)
    requires h in e.sockets
    ensures Retire(e, h).open == Without(e.open, h)
    ensures forall j :: j != h ==> (j in Retire(e, h).sockets <==> j in e.sockets)
    ensures forall j :: j in e.sockets && j != h ==> Retire(e, h).sockets[j] == e.sockets[j]
    ensures !IsOpen(Retire(e, h), h)
  {
  }

  /** No open socket of e' is bound to `t`; the sockets still open are exactly
      those of e that were not, and they are unchanged. */
  ghost predicate ClosedExactly(e: Endpoint, e': Endpoint, t: nat) {
    && (forall h :: IsOpen(e', h) ==> !BoundTo(e', h, t))
    && (forall h :: IsOpen(e', h) <==> IsOpen(e, h) && !BoundTo(e, h, t))
    && (forall h :: IsOpen(e', h) ==> e'.sockets[h] == e.sockets[h])
  }

  lemma ClosedExactlyStep(e: Endpoint, e1: Endpoint, e': Endpoint, t: nat)
    requires ClosedExactly(e1, e', t)
    requires forall j :: StaysAlike(e, e1, j, t)
    ensures ClosedExactly(e, e', t)
  {
    forall h
      ensures IsOpen(e', h) <==> IsOpen(e, h) && !BoundTo(e, h, t)
      ensures IsOpen(e', h) ==> e'.sockets[h] == e.sockets[h]
    {
      assert StaysAlike(e, e1, h, t);
      hide BoundTo;
    }
  }

  /** close_all_sockets: it comes to an end, no open socket is bound to the
      transport afterwards, and exactly the sockets bound to it, themselves or
      through their peer, have left the open list. */
  lemma {:induction false} CloseAllClosesExactly(e: Endpoint, t: nat)
    requires Coherent(e)
    ensures Coherent(CloseAll(e, t))
    ensures ClosedExactly(e, CloseAll(e, t), t)
    decreases |e.open|
  {
    var i := FirstBound(e, e.open, t);
    if i == |e.open| {
      forall h | IsOpen(e, h)
        ensures !BoundTo(e, h, t)
      {
        assert h in e.open;
      }
      hide BoundTo, Coherent;
    } else {
      var h := e.open[i];
      assert IsOpen(e, h);
      hide Close, Coherent, ClosedExactly, StaysAlike;
      CloseCoherent(e, h);
      CloseFrame(e, h);
      CloseAllClosesExactly(Close(e, h), t);
      forall j
        ensures StaysAlike(e, Close(e, h), j, t)
      {
        CloseKeepsBinding(e, h, j, t);
      }
      ClosedExactlyStep(e, Close(e, h), CloseAll(e, t), t);
    }
  }

  /** The sockets that are closed when a transport goes away are its own and those whose
      peer is over it; a socket without a peer goes by its own transport alone. */
  lemma TransportCloses(e: Endpoint, t: nat, h: nat)
    requires Coherent(e) && IsOpen(e, h)
    ensures var s, gone := e.sockets[h], !IsOpen(CloseAll(e, t), h);
            && (s.peer.NoPeer? ==> (gone <==> s.transport == t))
            && (s.peer.Remote? ==> (gone <==> s.transport == t || s.peer.transport == t))
            && (s.peer.Local? ==> s.peer.handle in e.sockets
                                  && (gone <==> s.transport == t || e.sockets[s.peer.handle].transport == t))
  {
    assert SocketCoherent(e, h);
    CloseAllClosesExactly(e, t);
    hide CloseAll;
  }

  /** Socket `j` is open and not bound to `t` in both states, unchanged, or in neither. */
  ghost predicate StaysAlike(e: Endpoint, e': Endpoint, j: nat, t: nat) {
    && (IsOpen(e', j) && !BoundTo(e', j, t) <==> IsOpen(e, j) && !BoundTo(e, j, t))
    && (IsOpen(e', j) ==> IsOpen(e, j) && e'.sockets[j] == e.sockets[j])
  }

  lemma CloseFrameAt(e: Endpoint, h: nat, j: nat)
    requires Coherent(e) && IsOpen(e, h)
    ensures j == h || e.sockets[h].peer == Local(j) ==> !IsOpen(Close(e, h), j)
    ensures j != h && e.sockets[h].peer != Local(j) ==>
              (j in Close(e, h).sockets <==> j in e.sockets)
    ensures j != h && e.sockets[h].peer != Local(j) && j in e.sockets ==>
              Close(e, h).sockets[j] == e.sockets[j]
  {
    CloseFrame(e, h);
  }

  lemma CloseKeepsBinding(e: Endpoint, h: nat, j: nat, t: nat)
    requires Coherent(e) && IsOpen(e, h) && BoundTo(e, h, t)
    ensures StaysAlike(e, Close(e, h), j, t)
  {
    hide Close;
    CloseFrameAt(e, h, j);
    assert SocketCoherent(e, h) && (IsOpen(e, j) ==> SocketCoherent(e, j));
    if IsOpen(e, j) && e.sockets[j].peer.Local? {
      CloseFrameAt(e, h, e.sockets[j].peer.handle);
    }
    hide Coherent;
  }
}
